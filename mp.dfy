// BPMIR.mp and BPMIR.mp2: a shift-and filter over the intervals between
// consecutive chords, with matchcheck run on every window it lets
// through; as the source writes it (the state mask `initial + 1` keeps
// one bit and tmp is never reset) and corrected (the state mask is
// `initial`, m - 1 one-bits, and tmp is reset to all ones before each
// boundary).
module IntervalFilter {
  import opened Bits
  import opened Records
  import opened Automaton
  import opened Matching

  /** mp collects the exact intervals `b - a` and keeps their entries at
      `t[interval + 127]` (255 entries); mp2 collects the interval classes
      `(b - a) % 12` and keeps them at `t[interval]` (13 entries). */
  datatype Variant = Exact | Octave

  /** What d collects for note a of chord j - 1 and note b of chord j. */
  function Interval(v: Variant, a: int, b: int): int
  {
    match v
    case Exact => b - a
    case Octave => (b - a) % VOCSIZE
  }

  /** The index of the entry of interval x in t. */
  function Slot(v: Variant, x: int): int
  {
    match v
    case Exact => x + 127
    case Octave => x
  }

  function TableSize(v: Variant): nat
  {
    match v
    case Exact => 255
    case Octave => VOCSIZE + 1
  }

  /** The interval i + 1 of the pattern, `p[i + 1] - p[i]` as v reads it. */
  function PatternInterval(v: Variant, pattern: seq<int>, i: int): int
  {
    if 0 <= i && i + 1 < |pattern| then Interval(v, pattern[i], pattern[i + 1]) else 0
  }

  /** The keys of the table, key i for pattern interval i + 1. */
  function PatternKeys(v: Variant, pattern: seq<int>): (keys: seq<int>)
    requires |pattern| >= 1
    ensures |keys| == |pattern| - 1
  {
    seq(|pattern| - 1, i => Slot(v, PatternInterval(v, pattern, i)))
  }

  /** t: `initial = 2 ** (m - 1) - 1` in every entry, less `2 ** (i - 1)`
      at the slot of each pattern interval i. */
  function MpTable(v: Variant, pattern: seq<int>): (t: seq<nat>)
    requires |pattern| >= 1
    ensures |t| == TableSize(v)
  {
    seq(TableSize(v), x => Cleared(Full(|pattern| - 1), PatternKeys(v, pattern), x, |pattern| - 1))
  }

  /** Bit i of an entry is cleared exactly for the pattern interval i + 1
      keyed there. */
  lemma MpTableBits(v: Variant, pattern: seq<int>, x: int, i: nat)
    requires |pattern| >= 1 && 0 <= x < TableSize(v)
    ensures Bit(MpTable(v, pattern)[x], i) == (i < |pattern| - 1 && PatternKeys(v, pattern)[i] != x)
  {
    ClearedBits(|pattern| - 1, PatternKeys(v, pattern), x, |pattern| - 1, i);
  }

  // ---------------------------------------------------------------------
  // The interval list d of a boundary

  /** `d |= [x]`: x joins d at its end unless d already holds it. */
  function Union(d: seq<int>, x: int): seq<int>
  {
    if x in d then d else d + [x]
  }

  /** d after the inner loop has seen the first n notes a of chord prev
      for the note b. */
  function AddIntervals(v: Variant, d: seq<int>, prev: seq<int>, b: int, n: nat): seq<int>
    requires n <= |prev|
  {
    if n == 0 then d else Union(AddIntervals(v, d, prev, b, n - 1), Interval(v, prev[n - 1], b))
  }

  /** d after the outer loop has seen the first n notes b of chord cur. */
  function Intervals(v: Variant, prev: seq<int>, cur: seq<int>, n: nat): seq<int>
    requires n <= |cur|
  {
    if n == 0 then [] else AddIntervals(v, Intervals(v, prev, cur, n - 1), prev, cur[n - 1], |prev|)
  }

  /** d at boundary j, between chords j - 1 and j. */
  function Diffs(v: Variant, chords: seq<seq<int>>, j: int): seq<int>
    requires 1 <= j < |chords|
  {
    Intervals(v, chords[j - 1], chords[j], |chords[j]|)
  }

  predicate Distinct(d: seq<int>)
  {
    forall i, k :: 0 <= i < k < |d| ==> d[i] != d[k]
  }

  /** x is the interval between a note of prev and one of the first n
      notes of cur. */
  predicate IntervalOccurs(v: Variant, prev: seq<int>, cur: seq<int>, n: nat, x: int)
    requires n <= |cur|
  {
    exists ia, ib :: 0 <= ia < |prev| && 0 <= ib < n && Interval(v, prev[ia], cur[ib]) == x
  }

  lemma UnionMembers(d: seq<int>, x: int)
    ensures forall y :: y in Union(d, x) <==> y in d || y == x
    ensures Distinct(d) ==> Distinct(Union(d, x))
  {
  }

  lemma {:induction false} AddIntervalsMembers(v: Variant, d: seq<int>, prev: seq<int>, b: int, n: nat)
    requires n <= |prev|
    ensures Distinct(d) ==> Distinct(AddIntervals(v, d, prev, b, n))
    ensures forall y :: y in AddIntervals(v, d, prev, b, n) <==>
              y in d || exists ia :: 0 <= ia < n && Interval(v, prev[ia], b) == y
  {
    if n > 0 {
      AddIntervalsMembers(v, d, prev, b, n - 1);
      UnionMembers(AddIntervals(v, d, prev, b, n - 1), Interval(v, prev[n - 1], b));
    }
  }

  /** d holds each interval between the two chords, and each only once. */
  lemma {:induction false} IntervalsMembers(v: Variant, prev: seq<int>, cur: seq<int>, n: nat)
    requires n <= |cur|
    ensures Distinct(Intervals(v, prev, cur, n))
    ensures forall y :: y in Intervals(v, prev, cur, n) <==> IntervalOccurs(v, prev, cur, n, y)
  {
    if n > 0 {
      var d := Intervals(v, prev, cur, n - 1);
      IntervalsMembers(v, prev, cur, n - 1);
      AddIntervalsMembers(v, d, prev, cur[n - 1], |prev|);
      forall y | y in Intervals(v, prev, cur, n) ensures IntervalOccurs(v, prev, cur, n, y) {
        if !(y in d) {
          var ia :| 0 <= ia < |prev| && Interval(v, prev[ia], cur[n - 1]) == y;
          assert Interval(v, prev[ia], cur[n - 1]) == y;
        }
      }
      forall y | IntervalOccurs(v, prev, cur, n, y) ensures y in Intervals(v, prev, cur, n) {
        var ia, ib :| 0 <= ia < |prev| && 0 <= ib < n && Interval(v, prev[ia], cur[ib]) == y;
        if ib < n - 1 {
          assert IntervalOccurs(v, prev, cur, n - 1, y);
        }
      }
    }
  }

  /** Every interval of two MIDI chords has a slot in t. */
  predicate InSlots(v: Variant, d: seq<int>)
  {
    forall k :: 0 <= k < |d| ==> 0 <= Slot(v, d[k]) < TableSize(v)
  }

  lemma IntervalInSlots(v: Variant, a: int, b: int)
    requires v == Exact ==> 0 <= a <= 127 && 0 <= b <= 127
    ensures 0 <= Slot(v, Interval(v, a, b)) < TableSize(v)
  {
  }

  lemma {:induction false} AddIntervalsInSlots(v: Variant, d: seq<int>, prev: seq<int>, b: int, n: nat)
    requires n <= |prev| && (v == Exact ==> MidiPitches(prev) && 0 <= b <= 127) && InSlots(v, d)
    ensures InSlots(v, AddIntervals(v, d, prev, b, n))
  {
    if n > 0 {
      AddIntervalsInSlots(v, d, prev, b, n - 1);
      IntervalInSlots(v, prev[n - 1], b);
    }
  }

  lemma {:induction false} IntervalsInSlots(v: Variant, prev: seq<int>, cur: seq<int>, n: nat)
    requires n <= |cur| && (v == Exact ==> MidiPitches(prev) && MidiPitches(cur))
    ensures InSlots(v, Intervals(v, prev, cur, n))
  {
    if n > 0 {
      IntervalsInSlots(v, prev, cur, n - 1);
      AddIntervalsInSlots(v, Intervals(v, prev, cur, n - 1), prev, cur[n - 1], |prev|);
    }
  }

  /** The table indices `interval + 127` (mp) or `interval` (mp2) of d. */
  function Slots(v: Variant, d: seq<int>): (keys: seq<int>)
    ensures |keys| == |d|
  {
    seq(|d|, k => SlotAt(v, d, k))
  }

  function SlotAt(v: Variant, d: seq<int>, k: int): int
  {
    if 0 <= k < |d| then Slot(v, d[k]) else 0
  }

  lemma SlotsInTable(v: Variant, d: seq<int>, t: seq<nat>)
    requires InSlots(v, d) && |t| == TableSize(v)
    ensures InTable(t, Slots(v, d))
  {
  }

  // ---------------------------------------------------------------------
  // The words and the decisions

  /** mp's table covers the intervals -127 .. 127, so it needs MIDI
      pitches; mp2's interval classes always fall inside its table. */
  predicate MpRange(v: Variant, chords: seq<seq<int>>, pattern: seq<int>)
  {
    |pattern| >= 2 && (v == Exact ==> MidiPitches(pattern) && MidiChords(chords))
  }

  /** `d.each { |interval| tmp &= t[...] }` at boundary j, from x. */
  function AndDiffs(v: Variant, chords: seq<seq<int>>, pattern: seq<int>, x: nat, j: int): nat
    requires |pattern| >= 1 && 1 <= j < |chords|
  {
    AndAt(x, MpTable(v, pattern), Slots(v, Diffs(v, chords, j)))
  }

  /** tmp after boundaries 1 .. n: the source never resets it. */
  function MpTmp(v: Variant, chords: seq<seq<int>>, pattern: seq<int>, w: nat, n: nat): nat
    requires |pattern| >= 1 && (n == 0 || n < |chords|)
  {
    if n == 0 then Full(w) else AndDiffs(v, chords, pattern, MpTmp(v, chords, pattern, w, n - 1), n)
  }

  /** The number of boundaries: the loop runs j over `1...chords.size`. */
  function Boundaries(chords: seq<seq<int>>): nat
  {
    if |chords| == 0 then 0 else |chords| - 1
  }

  /** The word fed at boundary q + 1: tmp as the source keeps it, or the
      boundary's own AND when tmp is reset; 0 outside the boundaries. */
  function MpWord(v: Variant, chords: seq<seq<int>>, pattern: seq<int>, w: nat, reset: bool, q: int): nat
  {
    if |pattern| >= 1 && 0 <= q && q + 1 < |chords| then
      if reset then AndDiffs(v, chords, pattern, Full(w), q + 1) else MpTmp(v, chords, pattern, w, q + 1)
    else 0
  }

  function MpWords(v: Variant, chords: seq<seq<int>>, pattern: seq<int>, w: nat, reset: bool): (ws: seq<nat>)
    ensures |ws| == Boundaries(chords)
  {
    seq(Boundaries(chords), q => MpWord(v, chords, pattern, w, reset, q))
  }

  /** The state mask: `initial + 1 = 2 ** (m - 1)` in the source,
      `initial = 2 ** (m - 1) - 1` in the corrected filter. */
  function MpMask(m: nat, fixed: bool): nat
    requires m >= 1
  {
    if fixed then Full(m - 1) else Pow2(m - 1)
  }

  /** `em = 2 ** 12 - 1 - 2 ** (m - 2)`, negative from m = 14 on. */
  function MpEm(m: nat): int
    requires m >= 2
  {
    Full(VOCSIZE) - Pow2(m - 2)
  }

  /** The decision after boundary q + 1: the test `e | em == em` on the
      state after the first q + 1 words. */
  predicate MpHitAt(v: Variant, chords: seq<seq<int>>, pattern: seq<int>, w: nat, fixed: bool, q: int)
  {
    |pattern| >= 2 && 0 <= q < Boundaries(chords)
    && OrEquals(Run(Full(|pattern| - 1), MpWords(v, chords, pattern, w, fixed)[..q + 1], MpMask(|pattern|, fixed)),
                MpEm(|pattern|))
  }

  function MpHits(v: Variant, chords: seq<seq<int>>, pattern: seq<int>, w: nat, fixed: bool): (hits: seq<bool>)
    ensures |hits| == Boundaries(chords)
  {
    seq(Boundaries(chords), q => MpHitAt(v, chords, pattern, w, fixed, q))
  }

  /** What the filter returns: matchcheck on the window ending at each
      boundary it reports. */
  function MpSpec(v: Variant, chords: seq<seq<int>>, pattern: seq<int>, w: nat, fixed: bool)
    : seq<Option<seq<Match>>>
    requires |pattern| >= 1
  {
    if |chords| == 0 then [] else Reports(chords, pattern, MpHits(v, chords, pattern, w, fixed))
  }

  // ---------------------------------------------------------------------
  // The methods

  /** `BPMIR.mp` on a machine of w-bit words. */
  method Mp(chords: seq<seq<int>>, pattern: seq<int>, w: nat) returns (results: seq<Option<seq<Match>>>)
    requires MpRange(Exact, chords, pattern)
    ensures results == MpSpec(Exact, chords, pattern, w, false)
  {
    results := MpFilter(Exact, chords, pattern, w, false);
  }

  /** `BPMIR.mp2` on a machine of w-bit words. */
  method Mp2(chords: seq<seq<int>>, pattern: seq<int>, w: nat) returns (results: seq<Option<seq<Match>>>)
    requires MpRange(Octave, chords, pattern)
    ensures results == MpSpec(Octave, chords, pattern, w, false)
  {
    results := MpFilter(Octave, chords, pattern, w, false);
  }

  /** The body of mp and mp2; with `fixed` the state mask is `initial`
      and tmp is reset before each boundary. */
  method MpFilter(v: Variant, chords: seq<seq<int>>, pattern: seq<int>, w: nat, fixed: bool)
    returns (results: seq<Option<seq<Match>>>)
    requires MpRange(v, chords, pattern)
    ensures results == MpSpec(v, chords, pattern, w, fixed)
  {
    results := [];
    if |chords| == 0 {
      return;
    }
    var m := |pattern|;
    var t := BuildTable(v, pattern);
    var initial: nat := Pow2(m - 1) - 1;
    var e: nat := initial;
    var mask: nat := if fixed then initial else initial + 1;
    var em: int := Pow2(VOCSIZE) - 1 - Pow2(m - 2);
    var tmp: nat := Pow2(w) - 1;
    assert mask == MpMask(m, fixed) && em == MpEm(m) && initial == Full(m - 1);
    ghost var ws := MpWords(v, chords, pattern, w, fixed);
    ghost var hits := MpHits(v, chords, pattern, w, fixed);
    for q := 0 to |chords| - 1
      invariant e == Run(Full(m - 1), ws[..q], MpMask(m, fixed))
      invariant !fixed ==> tmp == MpTmp(v, chords, pattern, w, q)
      invariant results == Reports(chords, pattern, hits[..q])
    {
      var e0 := e;
      var hit;
      e, tmp, hit := MpBoundary(v, chords, pattern, w, fixed, t, mask, em, q + 1, e, tmp);
      MpStep(v, chords, pattern, w, fixed, ws, hits, q, e0, e, hit);
      results := AddReport(chords, pattern, hits, q, results, hit);
    }
    assert hits[..|chords| - 1] == hits;
  }

  /** lib/bpmir.rb:102-111 (mp) and 134-143 (mp2): the loop body up to the report
      test, at boundary j. */
  method MpBoundary(v: Variant, chords: seq<seq<int>>, pattern: seq<int>, w: nat, fixed: bool, t: seq<nat>,
                    mask: nat, em: int, j: int, e0: nat, tmp0: nat)
    returns (e: nat, tmp: nat, hit: bool)
    requires MpRange(v, chords, pattern) && 1 <= j < |chords| && t == MpTable(v, pattern)
    requires mask == MpMask(|pattern|, fixed) && em == MpEm(|pattern|)
    requires !fixed ==> tmp0 == MpTmp(v, chords, pattern, w, j - 1)
    ensures e == Step(e0, MpWord(v, chords, pattern, w, fixed, j - 1), MpMask(|pattern|, fixed))
    ensures !fixed ==> tmp == MpTmp(v, chords, pattern, w, j)
    ensures hit == OrEquals(e, MpEm(|pattern|))
  {
    var d := CollectIntervals(v, chords[j - 1], chords[j]);
    tmp := if fixed then Pow2(w) - 1 else tmp0;
    IntervalsInSlots(v, chords[j - 1], chords[j], |chords[j]|);
    SlotsInTable(v, d, t);
    var before := tmp;
    tmp := AndIntervals(v, tmp, t, d);
    assert tmp == AndDiffs(v, chords, pattern, before, j);
    assert tmp == MpWord(v, chords, pattern, w, fixed, j - 1) by {
      if fixed {
        assert before == Full(w);
      } else {
        assert MpTmp(v, chords, pattern, w, j) == AndDiffs(v, chords, pattern, tmp0, j);
      }
    }
    e := Step(e0, tmp, mask);
    hit := OrEquals(e, em);
  }

  /** The table of lib/bpmir.rb:93-95 (mp) and 125-127 (mp2). */
  method BuildTable(v: Variant, pattern: seq<int>) returns (t: seq<nat>)
    requires |pattern| >= 1 && (v == Exact ==> MidiPitches(pattern))
    ensures t == MpTable(v, pattern)
  {
    var m := |pattern|;
    var initial := Pow2(m - 1) - 1;
    var keys := PatternKeys(v, pattern);
    t := [];
    for x := 0 to TableSize(v)
      invariant |t| == x && forall y :: 0 <= y < x ==> t[y] == initial
    {
      t := t + [initial];
    }
    for i := 1 to m
      invariant |t| == TableSize(v) && Pow2(i - 1) <= Pow2(m - 1)
      invariant forall x :: 0 <= x < |t| ==> t[x] == Cleared(initial, keys, x, i - 1)
    {
      var k := Slot(v, Interval(v, pattern[i - 1], pattern[i]));
      assert keys[i - 1] == k && 0 <= k < |t| by {
        IntervalInSlots(v, pattern[i - 1], pattern[i]);
      }
      Pow2Monotone(i, m - 1);
      ClearedStep(t, keys, initial, i, k);
      t := t[k := t[k] - Pow2(i - 1)];
    }
    assert forall x :: 0 <= x < |t| ==> t[x] == MpTable(v, pattern)[x];
  }

  /** lib/bpmir.rb:105-107 (mp) and 137-139 (mp2): `d |= [interval]` for every
      note b of cur and, inside, every note a of prev. */
  method CollectIntervals(v: Variant, prev: seq<int>, cur: seq<int>) returns (d: seq<int>)
    ensures d == Intervals(v, prev, cur, |cur|)
  {
    d := [];
    for ib := 0 to |cur|
      invariant d == Intervals(v, prev, cur, ib)
    {
      var d0 := d;
      for ia := 0 to |prev|
        invariant d == AddIntervals(v, d0, prev, cur[ib], ia)
      {
        var x := Interval(v, prev[ia], cur[ib]);
        if !(x in d) {
          d := d + [x];
        }
      }
    }
  }

  /** lib/bpmir.rb:109 (mp) and 141 (mp2): `d.each { |interval| tmp &= t[...] }`. */
  method AndIntervals(v: Variant, tmp0: nat, t: seq<nat>, d: seq<int>) returns (tmp: nat)
    requires InTable(t, Slots(v, d))
    ensures tmp == AndAt(tmp0, t, Slots(v, d))
  {
    tmp := tmp0;
    for k := 0 to |d|
      invariant tmp == AndAt(tmp0, t, Slots(v, d)[..k])
    {
      assert Slots(v, d)[..k + 1][..k] == Slots(v, d)[..k] && Slots(v, d)[k] == Slot(v, d[k]);
      tmp := And(tmp, t[Slot(v, d[k])]);
    }
    assert Slots(v, d)[..|d|] == Slots(v, d);
  }

  /** One boundary of the loop: the state and the decision after it. */
  lemma MpStep(v: Variant, chords: seq<seq<int>>, pattern: seq<int>, w: nat, fixed: bool,
               ws: seq<nat>, hits: seq<bool>, q: nat, e0: nat, e: nat, hit: bool)
    requires |pattern| >= 2 && q < Boundaries(chords)
    requires ws == MpWords(v, chords, pattern, w, fixed) && hits == MpHits(v, chords, pattern, w, fixed)
    requires e0 == Run(Full(|pattern| - 1), ws[..q], MpMask(|pattern|, fixed))
    requires e == Step(e0, MpWord(v, chords, pattern, w, fixed, q), MpMask(|pattern|, fixed))
    requires hit == OrEquals(e, MpEm(|pattern|))
    ensures e == Run(Full(|pattern| - 1), ws[..q + 1], MpMask(|pattern|, fixed))
    ensures hits[q] == hit
  {
    assert ws[q] == MpWord(v, chords, pattern, w, fixed, q);
    RunPrefix(Full(|pattern| - 1), ws, q, MpMask(|pattern|, fixed));
  }

  // ---------------------------------------------------------------------
  // As written: the filter lets every boundary through

  /** With the mask `initial + 1 = 2 ** (m - 1)` a state after at least
      one word keeps no bit but m - 1. */
  lemma PowMaskState(e0: nat, ts: seq<nat>, m: nat, b: nat)
    requires ts != [] && m >= 1 && Bit(Run(e0, ts, Pow2(m - 1)), b)
    ensures b == m - 1
  {
    StepBit(Run(e0, ts[..|ts| - 1], Pow2(m - 1)), ts[|ts| - 1], Pow2(m - 1), b);
    Pow2Bit(m - 1, b);
  }

  /** Such a state passes `e | em == em` unless m = 13: for m <= 12 em
      keeps bit m - 1, from m = 14 on em is negative and its complement
      lies below bit m - 2. */
  lemma AsWrittenTestPasses(x: nat, m: nat)
    requires m >= 2 && m != VOCSIZE + 1
    requires forall b: nat :: Bit(x, b) ==> b == m - 1
    ensures OrEquals(x, MpEm(m))
  {
    OrEqualsBits(x, MpEm(m));
    if m <= VOCSIZE {
      AllButBit(VOCSIZE, m - 2, m - 1);
    } else {
      Pow2Monotone(VOCSIZE, m - 2);
      var c := Pow2(m - 2) - Pow2(VOCSIZE);
      assert MpEm(m) < 0 && -MpEm(m) - 1 == c;
      HighBitsClear(c, m - 2, m - 1);
    }
  }

  /** mp and mp2 as written report after every boundary, for every
      pattern length m >= 2 but 13 and every word length. */
  lemma MpReportsEveryBoundary(v: Variant, chords: seq<seq<int>>, pattern: seq<int>, w: nat)
    requires |pattern| >= 2 && |pattern| != VOCSIZE + 1
    ensures forall q :: 0 <= q < Boundaries(chords) ==> MpHits(v, chords, pattern, w, false)[q]
  {
    var m := |pattern|;
    forall q | 0 <= q < Boundaries(chords) ensures MpHits(v, chords, pattern, w, false)[q] {
      var ts := MpWords(v, chords, pattern, w, false)[..q + 1];
      var x := Run(Full(m - 1), ts, Pow2(m - 1));
      forall b: nat | Bit(x, b) ensures b == m - 1 {
        PowMaskState(Full(m - 1), ts, m, b);
      }
      AsWrittenTestPasses(x, m);
    }
  }

  /** So the results of mp and mp2 as written hold one entry per boundary
      j = k + 1: matchcheck on the window ending at chord j, whether or
      not the chords carry the pattern's intervals. */
  lemma MpAsWritten(v: Variant, chords: seq<seq<int>>, pattern: seq<int>, w: nat)
    requires |pattern| >= 2 && |pattern| != VOCSIZE + 1
    ensures |MpSpec(v, chords, pattern, w, false)| == Boundaries(chords)
    ensures forall k :: 0 <= k < Boundaries(chords) ==>
              MpSpec(v, chords, pattern, w, false)[k] == CheckAt(chords, k - |pattern| + 2, pattern)
  {
    if |chords| > 0 {
      MpReportsEveryBoundary(v, chords, pattern, w);
      ReportsAll(chords, pattern, MpHits(v, chords, pattern, w, false));
    }
  }

  /** For instance one step of a semitone against a pattern rising a major
      third: mp as written runs matchcheck on that window (which finds
      nothing), the corrected filter does not. */
  lemma MpAsWrittenExample()
    ensures MpSpec(Exact, [[60], [61]], [60, 64], 64, false) == [Some([])]
    ensures MpSpec(Exact, [[60], [61]], [60, 64], 64, true) == []
  {
    var chords: seq<seq<int>> := [[60], [61]];
    var pattern := [60, 64];
    assert MpSpec(Exact, chords, pattern, 64, false) == [Some([])] by {
      MpAsWritten(Exact, chords, pattern, 64);
      SemitoneNoMatch();
    }
    assert MpSpec(Exact, chords, pattern, 64, true) == [] by {
      SemitoneNoWindow();
      NoReports(chords, pattern, MpHits(Exact, chords, pattern, 64, true));
    }
  }

  /** A semitone holds no major third. */
  lemma SemitoneNoMatch()
    ensures MatchCheckSpec([[60], [61]], 0, [60, 64]) == []
  {
    var chords: seq<seq<int>> := [[60], [61]];
    var pattern := [60, 64];
    assert !PathFrom(chords, 0, pattern, 60) by {
      assert Running(pattern, 60, 1) == 64 && chords[1] == [61];
      assert Detect([61], 64).None? by {
        assert 61 % VOCSIZE != 64 % VOCSIZE && [61][1..] == [];
      }
    }
    assert chords[0][0] == 60 && |chords[0]| == 1;
    assert MatchCheckUpTo(chords, 0, pattern, 1) == MatchCheckUpTo(chords, 0, pattern, 0) + [];
  }

  /** The corrected mp lets no boundary of that input through. */
  lemma SemitoneNoWindow()
    ensures forall q :: 0 <= q < |MpHits(Exact, [[60], [61]], [60, 64], 64, true)|
              ==> !MpHits(Exact, [[60], [61]], [60, 64], 64, true)[q]
  {
    var chords: seq<seq<int>> := [[60], [61]];
    var pattern := [60, 64];
    var hits := MpHits(Exact, chords, pattern, 64, true);
    assert |hits| == 1 by { assert Boundaries(chords) == 1; }
    assert !IntervalWindow(Exact, chords, pattern, 0) by {
      assert PatternInterval(Exact, pattern, 0) == 4 && !IntervalOccurs(Exact, [60], [61], 1, 4);
    }
    assert MpRange(Exact, chords, pattern) by {
      assert MidiPitches(chords[0]) && MidiPitches(chords[1]);
    }
    MpFixedHit(Exact, chords, pattern, 64, 0);
  }

  // ---------------------------------------------------------------------
  // Corrected: a filter over the pattern's intervals

  /** The chords s .. s + m - 1 carry the pattern's intervals: each
      interval i + 1 of the pattern lies between a note of chord s + i and
      a note of chord s + i + 1. */
  predicate IntervalWindow(v: Variant, chords: seq<seq<int>>, pattern: seq<int>, s: int)
  {
    0 <= s && s + |pattern| - 1 < |chords|
    && forall i :: 0 <= i < |pattern| - 1 ==>
         IntervalOccurs(v, chords[s + i], chords[s + i + 1], |chords[s + i + 1]|, PatternInterval(v, pattern, i))
  }

  /** The windows that carry the pattern's intervals, by start. */
  function IntervalWindows(v: Variant, chords: seq<seq<int>>, pattern: seq<int>): (ok: seq<bool>)
    ensures |ok| == if |chords| < |pattern| then 0 else |chords| - |pattern| + 1
  {
    seq(if |chords| < |pattern| then 0 else |chords| - |pattern| + 1, s => IntervalWindow(v, chords, pattern, s))
  }

  /** Bit i of the AND of the entries of d from w one-bits is cleared
      exactly when the pattern's interval i + 1 is in d. */
  lemma SlotsAndBit(v: Variant, pattern: seq<int>, d: seq<int>, w: nat, i: nat)
    requires InSlots(v, d) && i < |pattern| - 1 <= w
    ensures !Bit(AndAt(Full(w), MpTable(v, pattern), Slots(v, d)), i) <==> PatternInterval(v, pattern, i) in d
  {
    var t := MpTable(v, pattern);
    var keys := Slots(v, d);
    var x := PatternInterval(v, pattern, i);
    SlotsInTable(v, d, t);
    AndAtBits(Full(w), t, keys, i);
    LowMaskBit(w, i);
    assert PatternKeys(v, pattern)[i] == Slot(v, x);
    if x in d {
      var k := IndexOf(d, x);
      assert keys[k] == Slot(v, x);
      MpTableBits(v, pattern, keys[k], i);
    } else {
      forall k | 0 <= k < |keys| ensures Bit(t[keys[k]], i) {
        assert keys[k] == Slot(v, d[k]) && d[k] != x;
        MpTableBits(v, pattern, keys[k], i);
      }
    }
  }

  /** Bit i of the corrected word at boundary p + 1 is cleared exactly when
      the pattern's interval i + 1 lies between chords p and p + 1. */
  lemma MpFixedWordBit(v: Variant, chords: seq<seq<int>>, pattern: seq<int>, w: nat, p: nat, i: nat)
    requires MpRange(v, chords, pattern) && p + 1 < |chords| && i < |pattern| - 1 <= w
    ensures !Bit(MpWord(v, chords, pattern, w, true, p), i)
            <==> IntervalOccurs(v, chords[p], chords[p + 1], |chords[p + 1]|, PatternInterval(v, pattern, i))
  {
    IntervalsInSlots(v, chords[p], chords[p + 1], |chords[p + 1]|);
    IntervalsMembers(v, chords[p], chords[p + 1], |chords[p + 1]|);
    SlotsAndBit(v, pattern, Diffs(v, chords, p + 1), w, i);
  }

  /** Words ts whose bit i is cleared at boundary p + 1 exactly when the
      pattern's interval i + 1 lies between chords p and p + 1. */
  predicate WordsShowIntervals(v: Variant, chords: seq<seq<int>>, pattern: seq<int>, ts: seq<nat>)
  {
    |ts| < |chords|
    && forall p, i :: 0 <= p < |ts| && 0 <= i < |pattern| - 1 ==>
         (!Bit(ts[p], i) <==> IntervalOccurs(v, chords[p], chords[p + 1], |chords[p + 1]|, PatternInterval(v, pattern, i)))
  }

  lemma FixedWordsShowIntervals(v: Variant, chords: seq<seq<int>>, pattern: seq<int>, w: nat, n: nat)
    requires MpRange(v, chords, pattern) && |pattern| - 1 <= w && n < |chords|
    ensures WordsShowIntervals(v, chords, pattern, MpWords(v, chords, pattern, w, true)[..n])
  {
    var ts := MpWords(v, chords, pattern, w, true)[..n];
    forall p, i | 0 <= p < |ts| && 0 <= i < |pattern| - 1
      ensures !Bit(ts[p], i) <==> IntervalOccurs(v, chords[p], chords[p + 1], |chords[p + 1]|, PatternInterval(v, pattern, i))
    {
      MpFixedWordBit(v, chords, pattern, w, p, i);
    }
  }

  /** The last m - 1 of such words clear the shifted bits exactly when the
      window they close carries the pattern's intervals. */
  lemma WindowWords(v: Variant, chords: seq<seq<int>>, pattern: seq<int>, ts: seq<nat>)
    requires |pattern| >= 2 && WordsShowIntervals(v, chords, pattern, ts)
    ensures LastWordsClear(ts, |pattern| - 1) <==> IntervalWindow(v, chords, pattern, |ts| - |pattern| + 1)
  {
    var m := |pattern|;
    var s := |ts| - m + 1;
    if LastWordsClear(ts, m - 1) {
      forall i | 0 <= i < m - 1
        ensures IntervalOccurs(v, chords[s + i], chords[s + i + 1], |chords[s + i + 1]|, PatternInterval(v, pattern, i))
      {
        LastWordClear(ts, m - 1, s + i);
      }
    }
    if IntervalWindow(v, chords, pattern, s) {
      forall p | |ts| - (m - 1) <= p < |ts| ensures !Bit(ts[p], p - (|ts| - (m - 1))) {
        assert IntervalOccurs(v, chords[s + (p - s)], chords[s + (p - s) + 1], |chords[s + (p - s) + 1]|,
                              PatternInterval(v, pattern, p - s));
      }
    }
  }

  /** From m - 1 one-bits under the mask `initial`, the test `e | em == em`
      passes exactly when the last m - 1 words cleared the shifted bits. */
  lemma FixedTest(ts: seq<nat>, m: nat)
    requires 2 <= m <= VOCSIZE + 1
    ensures OrEquals(Run(Full(m - 1), ts, Full(m - 1)), MpEm(m)) <==> LastWordsClear(ts, m - 1)
  {
    FixedTestIn(ts, m, VOCSIZE);
  }

  lemma FixedTestIn(ts: seq<nat>, m: nat, w: nat)
    requires 2 <= m <= w + 1
    ensures OrEquals(Run(Full(m - 1), ts, Full(m - 1)), Full(w) - Pow2(m - 2)) <==> LastWordsClear(ts, m - 1)
  {
    FullTest(ts, m - 1, w);
  }

  /** The corrected filter (mask `initial`, tmp reset at each boundary, a
      word of at least m - 1 bits, m <= 13) reports after boundary q + 1
      exactly when the window it closes carries the pattern's intervals. */
  lemma MpFixedHit(v: Variant, chords: seq<seq<int>>, pattern: seq<int>, w: nat, q: nat)
    requires MpRange(v, chords, pattern) && |pattern| <= VOCSIZE + 1 && |pattern| - 1 <= w && q < Boundaries(chords)
    ensures MpHits(v, chords, pattern, w, true)[q] <==> IntervalWindow(v, chords, pattern, q - |pattern| + 2)
  {
    FixedHitClear(v, chords, pattern, w, q);
    FixedWindowWords(v, chords, pattern, w, q);
  }

  lemma FixedHitClear(v: Variant, chords: seq<seq<int>>, pattern: seq<int>, w: nat, q: nat)
    requires 2 <= |pattern| <= VOCSIZE + 1 && q < Boundaries(chords)
    ensures MpHits(v, chords, pattern, w, true)[q]
            <==> LastWordsClear(MpWords(v, chords, pattern, w, true)[..q + 1], |pattern| - 1)
  {
    assert MpHits(v, chords, pattern, w, true)[q] == MpHitAt(v, chords, pattern, w, true, q);
    assert MpMask(|pattern|, true) == Full(|pattern| - 1);
    FixedTest(MpWords(v, chords, pattern, w, true)[..q + 1], |pattern|);
  }

  lemma FixedWindowWords(v: Variant, chords: seq<seq<int>>, pattern: seq<int>, w: nat, q: nat)
    requires MpRange(v, chords, pattern) && |pattern| - 1 <= w && q < Boundaries(chords)
    ensures LastWordsClear(MpWords(v, chords, pattern, w, true)[..q + 1], |pattern| - 1)
            <==> IntervalWindow(v, chords, pattern, q - |pattern| + 2)
  {
    var ts := MpWords(v, chords, pattern, w, true)[..q + 1];
    assert WordsShowIntervals(v, chords, pattern, ts) by {
      FixedWordsShowIntervals(v, chords, pattern, w, q + 1);
    }
    WindowWords(v, chords, pattern, ts);
  }

  /** Flattened, the corrected filter gives matchcheck on exactly the
      windows that carry the pattern's intervals, in order. */
  lemma MpCorrected(v: Variant, chords: seq<seq<int>>, pattern: seq<int>, w: nat)
    requires MpRange(v, chords, pattern) && |pattern| <= VOCSIZE + 1 && |pattern| - 1 <= w
    ensures Flatten(MpSpec(v, chords, pattern, w, true))
            == PassedUpTo(chords, pattern, IntervalWindows(v, chords, pattern), |IntervalWindows(v, chords, pattern)|)
  {
    if |chords| > 0 {
      var hits := MpHits(v, chords, pattern, w, true);
      var ok := IntervalWindows(v, chords, pattern);
      FixedMarked(v, chords, pattern, w);
      if |chords| < |pattern| {
        forall q | 0 <= q < |hits| ensures !hits[q] {
          assert ReportsMarked(pattern, hits, ok);
        }
        NoReports(chords, pattern, hits);
      } else {
        ReportsPassed(chords, pattern, hits, ok, |ok|);
      }
    }
  }

  /** The corrected filter reports after exactly the boundaries that close
      a window carrying the pattern's intervals. */
  lemma FixedMarked(v: Variant, chords: seq<seq<int>>, pattern: seq<int>, w: nat)
    requires MpRange(v, chords, pattern) && |pattern| <= VOCSIZE + 1 && |pattern| - 1 <= w
    ensures ReportsMarked(pattern, MpHits(v, chords, pattern, w, true), IntervalWindows(v, chords, pattern))
  {
    var hits := MpHits(v, chords, pattern, w, true);
    var ok := IntervalWindows(v, chords, pattern);
    forall q | 0 <= q < |hits|
      ensures hits[q] == (q >= |pattern| - 2 && q - |pattern| + 2 < |ok| && ok[q - |pattern| + 2])
    {
      MarkedAt(v, chords, pattern, w, hits, ok, q);
    }
  }

  lemma MarkedAt(v: Variant, chords: seq<seq<int>>, pattern: seq<int>, w: nat, hits: seq<bool>, ok: seq<bool>, q: nat)
    requires MpRange(v, chords, pattern) && |pattern| <= VOCSIZE + 1 && |pattern| - 1 <= w
    requires hits == MpHits(v, chords, pattern, w, true) && ok == IntervalWindows(v, chords, pattern) && q < |hits|
    ensures hits[q] == (q >= |pattern| - 2 && q - |pattern| + 2 < |ok| && ok[q - |pattern| + 2])
  {
    var s := q - |pattern| + 2;
    MpFixedHit(v, chords, pattern, w, q);
    if 0 <= s < |ok| {
      assert ok[s] == IntervalWindow(v, chords, pattern, s);
    }
  }

  // ---------------------------------------------------------------------
  // Corrected mp2 loses no match

  /** A window where matchcheck finds an octave-equivalent occurrence of
      the pattern carries the pattern's interval classes. */
  lemma OccurrenceIntervals(chords: seq<seq<int>>, pattern: seq<int>, s: int)
    requires MpRange(Octave, chords, pattern) && InWindow(chords, s, pattern) && MatchCheckSpec(chords, s, pattern) != []
    ensures IntervalWindow(Octave, chords, pattern, s)
  {
    var res := MatchCheckSpec(chords, s, pattern);
    MatchCheckCorrect(chords, s, pattern);
    assert res[0] in res;
    var notes := res[0].notes;
    assert OctaveOccurrence(chords, s, pattern, notes);
    forall i | 0 <= i < |pattern| - 1
      ensures IntervalOccurs(Octave, chords[s + i], chords[s + i + 1], |chords[s + i + 1]|, PatternInterval(Octave, pattern, i))
    {
      OccurrenceStep(chords, s, pattern, notes, i);
    }
  }

  /** Consecutive notes of an octave-equivalent occurrence are the
      pattern's interval apart, modulo 12. */
  lemma OccurrenceStep(chords: seq<seq<int>>, s: int, pattern: seq<int>, notes: seq<int>, i: nat)
    requires InWindow(chords, s, pattern) && OctaveOccurrence(chords, s, pattern, notes) && i + 1 < |pattern|
    ensures IntervalOccurs(Octave, chords[s + i], chords[s + i + 1], |chords[s + i + 1]|, PatternInterval(Octave, pattern, i))
  {
    var a, b := notes[i], notes[i + 1];
    var x, y := notes[0] + pattern[i] - pattern[0], notes[0] + pattern[i + 1] - pattern[0];
    assert a % VOCSIZE == x % VOCSIZE && b % VOCSIZE == y % VOCSIZE;
    ModDiff(a, b, x, y);
    assert y - x == pattern[i + 1] - pattern[i];
    var ia := IndexOf(chords[s + i], a);
    var ib := IndexOf(chords[s + i + 1], b);
    assert Interval(Octave, chords[s + i][ia], chords[s + i + 1][ib]) == PatternInterval(Octave, pattern, i);
  }

  /** The windows mp2's intervals let through hold every match there is. */
  lemma {:induction false} OctavePassedAll(chords: seq<seq<int>>, pattern: seq<int>, n: nat)
    requires MpRange(Octave, chords, pattern) && n <= |IntervalWindows(Octave, chords, pattern)|
    ensures PassedUpTo(chords, pattern, IntervalWindows(Octave, chords, pattern), n) == AllWindowsUpTo(chords, pattern, n)
  {
    if n > 0 {
      OctavePassedAll(chords, pattern, n - 1);
      if !IntervalWindow(Octave, chords, pattern, n - 1) && MatchCheckSpec(chords, n - 1, pattern) != [] {
        OccurrenceIntervals(chords, pattern, n - 1);
      }
    }
  }

  /** Corrected, mp2 is a lossless filter: flattened, its results are
      matchcheck on every window of the chords, in order. */
  lemma Mp2Lossless(chords: seq<seq<int>>, pattern: seq<int>, w: nat)
    requires MpRange(Octave, chords, pattern) && |pattern| <= VOCSIZE + 1 && |pattern| - 1 <= w
    ensures Flatten(MpSpec(Octave, chords, pattern, w, true)) == AllWindows(chords, pattern)
  {
    MpCorrected(Octave, chords, pattern, w);
    OctavePassedAll(chords, pattern, |IntervalWindows(Octave, chords, pattern)|);
  }
}
