// BPMIR.shiftorand: the exact Shift-Or-And filter over chords, as the
// source writes it (tmp is never reset), and the filter with tmp reset
// before each chord.
module ShiftOrAndFilter {
  import opened Bits
  import opened Records
  import opened Automaton

  // The word length w is WORDLENGTH for the method; the lemmas hold for
  // every w of at least m bits.

  /** The table t[0..127]: m one-bits, minus `2 ** i` for each pattern
      position i holding pitch x. */
  function Table(pattern: seq<int>): seq<nat>
  {
    seq(128, x => Cleared(Pow2(|pattern|) - 1, pattern, x, |pattern|))
  }

  lemma TableBits(pattern: seq<int>, x: int, i: nat)
    requires 0 <= x < 128
    ensures Bit(Table(pattern)[x], i) == (i < |pattern| && pattern[i] != x)
  {
    ClearedBits(|pattern|, pattern, x, |pattern|, i);
  }

  /** tmp after the first n chords: the source never resets it. */
  function Tmp(chords: seq<seq<int>>, pattern: seq<int>, n: nat, w: nat): nat
    requires n <= |chords| && MidiChords(chords)
  {
    if n == 0 then Full(w) else AndAt(Tmp(chords, pattern, n - 1, w), Table(pattern), chords[n - 1])
  }

  /** The words fed to the automaton for the first n chords: tmp after
      each of them. */
  function Words(chords: seq<seq<int>>, pattern: seq<int>, w: nat, n: nat): (ts: seq<nat>)
    requires n <= |chords| && MidiChords(chords)
    ensures |ts| == n
  {
    if n == 0 then [] else Words(chords, pattern, w, n - 1) + [Tmp(chords, pattern, n, w)]
  }

  /** The report test `e | em == em` after the words ts, for a pattern of
      m notes: e starts at mask and `em = 2 ** w - 1 - 2 ** (m - 1)`. */
  predicate Reported(ts: seq<nat>, m: nat, w: nat)
    requires m >= 1
  {
    OrEquals(Run(Pow2(m) - 1, ts, Pow2(m) - 1), Full(w) - Pow2(m - 1))
  }

  /** The report test after chord n - 1. */
  predicate ReportAt(chords: seq<seq<int>>, pattern: seq<int>, w: nat, n: nat)
    requires 1 <= |pattern| && n <= |chords| && MidiChords(chords)
  {
    Reported(Words(chords, pattern, w, n), |pattern|, w)
  }

  /** The windows shiftorand reports over the first n chords. */
  function ShiftOrAndSpec(chords: seq<seq<int>>, pattern: seq<int>, w: nat, n: nat): seq<Window>
    requires 1 <= |pattern| && n <= |chords| && MidiChords(chords)
  {
    if n == 0 then []
    else
      ShiftOrAndSpec(chords, pattern, w, n - 1)
        + if ReportAt(chords, pattern, w, n) then [Window(n - |pattern|, n - 1)] else []
  }

  /** lib/bpmir.rb:160-161: every entry starts at m one-bits and loses bit i for
      each position i of the pattern holding that pitch. */
  method BuildTable(pattern: seq<int>) returns (t: seq<nat>)
    requires MidiPitches(pattern)
    ensures t == Table(pattern)
  {
    t := [];
    var initial := Pow2(|pattern|) - 1;
    for x := 0 to 128
      invariant |t| == x && forall y :: 0 <= y < x ==> t[y] == initial
    {
      t := t + [initial];
    }
    for i := 0 to |pattern|
      invariant |t| == 128
      invariant Pow2(i) <= Pow2(|pattern|)
      invariant forall x :: 0 <= x < 128 ==> t[x] == Cleared(initial, pattern, x, i)
    {
      Pow2Monotone(i + 1, |pattern|);
      ClearedStep(t, pattern, initial, i + 1, pattern[i]);
      t := t[pattern[i] := t[pattern[i]] - Pow2(i)];
    }
  }

  /** `chords[j].each { |note| tmp &= t[note] }`. */
  method AndChord(tmp0: nat, t: seq<nat>, chord: seq<int>) returns (tmp: nat)
    requires InTable(t, chord)
    ensures tmp == AndAt(tmp0, t, chord)
  {
    tmp := tmp0;
    for k := 0 to |chord|
      invariant tmp == AndAt(tmp0, t, chord[..k])
    {
      assert chord[..k + 1][..k] == chord[..k];
      tmp := And(tmp, t[chord[k]]);
    }
    assert chord[..|chord|] == chord;
  }

  method ShiftOrAnd(chords: seq<seq<int>>, pattern: seq<int>, w: nat) returns (results: seq<Window>)
    requires |pattern| >= 1 && MidiPitches(pattern) && MidiChords(chords)
    ensures results == ShiftOrAndSpec(chords, pattern, w, |chords|)
  {
    results := [];
    var t := BuildTable(pattern);
    var mask := Pow2(|pattern|) - 1;
    var e := mask;
    var tmp := Pow2(w) - 1;
    var em := tmp - Pow2(|pattern| - 1);
    assert em == Full(w) - Pow2(|pattern| - 1);
    for j := 0 to |chords|
      invariant tmp == Tmp(chords, pattern, j, w)
      invariant e == Run(mask, Words(chords, pattern, w, j), mask)
      invariant results == ShiftOrAndSpec(chords, pattern, w, j)
    {
      var tmp0, e0, results0 := tmp, e, results;
      tmp := AndChord(tmp, t, chords[j]);
      e := Step(e, tmp, mask);
      var hit := OrEquals(e, em);
      if hit {
        results := results + [Window(j + 1 - |pattern|, j)];
      }
      TmpStep(chords, pattern, w, j, t, tmp0, tmp);
      RunStep(chords, pattern, w, j, e0, tmp, e);
      ReportStep(chords, pattern, w, j, results0, em, e, hit, results);
    }
  }

  /** One chord of the scan, in three parts: from tmp0, e0 and results0
      before chord j the loop body computes tmp, e and the reports after
      it. */
  lemma TmpStep(chords: seq<seq<int>>, pattern: seq<int>, w: nat, j: nat, t: seq<nat>, tmp0: nat, tmp: nat)
    requires j < |chords| && MidiChords(chords)
    requires tmp0 == Tmp(chords, pattern, j, w)
    requires t == Table(pattern)
    requires tmp == AndAt(tmp0, t, chords[j])
    ensures tmp == Tmp(chords, pattern, j + 1, w)
  {
  }

  lemma RunStep(chords: seq<seq<int>>, pattern: seq<int>, w: nat, j: nat, e0: nat, tmp: nat, e: nat)
    requires 1 <= |pattern| && j < |chords| && MidiChords(chords)
    requires e0 == Run(Pow2(|pattern|) - 1, Words(chords, pattern, w, j), Pow2(|pattern|) - 1)
    requires tmp == Tmp(chords, pattern, j + 1, w)
    requires e == Step(e0, tmp, Pow2(|pattern|) - 1)
    ensures e == Run(Pow2(|pattern|) - 1, Words(chords, pattern, w, j + 1), Pow2(|pattern|) - 1)
  {
    var mask := Pow2(|pattern|) - 1;
    var ws := Words(chords, pattern, w, j + 1);
    WordsInit(chords, pattern, w, j + 1);
    RunSnoc(mask, ws, mask);
  }

  lemma ReportStep(chords: seq<seq<int>>, pattern: seq<int>, w: nat, j: nat,
                   results0: seq<Window>, em: int, e: nat, hit: bool, results: seq<Window>)
    requires 1 <= |pattern| && j < |chords| && MidiChords(chords)
    requires results0 == ShiftOrAndSpec(chords, pattern, w, j)
    requires em == Full(w) - Pow2(|pattern| - 1)
    requires e == Run(Pow2(|pattern|) - 1, Words(chords, pattern, w, j + 1), Pow2(|pattern|) - 1)
    requires hit == OrEquals(e, em)
    requires results == results0 + if hit then [Window(j + 1 - |pattern|, j)] else []
    ensures results == ShiftOrAndSpec(chords, pattern, w, j + 1)
  {
    assert ReportAt(chords, pattern, w, j + 1) == hit by {
      ReportAtState(chords, pattern, w, j + 1, e);
    }
    SpecSnoc(chords, pattern, w, j);
  }

  /** The report test applied to the automaton's state e after chord n - 1. */
  lemma ReportAtState(chords: seq<seq<int>>, pattern: seq<int>, w: nat, n: nat, e: nat)
    requires 1 <= |pattern| && n <= |chords| && MidiChords(chords)
    requires e == Run(Pow2(|pattern|) - 1, Words(chords, pattern, w, n), Pow2(|pattern|) - 1)
    ensures ReportAt(chords, pattern, w, n) == OrEquals(e, Full(w) - Pow2(|pattern| - 1))
  {
  }

  lemma SpecSnoc(chords: seq<seq<int>>, pattern: seq<int>, w: nat, n: nat)
    requires 1 <= |pattern| && n < |chords| && MidiChords(chords)
    ensures ShiftOrAndSpec(chords, pattern, w, n + 1)
            == ShiftOrAndSpec(chords, pattern, w, n)
               + if ReportAt(chords, pattern, w, n + 1) then [Window(n + 1 - |pattern|, n)] else []
  {
  }

  lemma WordsInit(chords: seq<seq<int>>, pattern: seq<int>, w: nat, n: nat)
    requires 1 <= n <= |chords| && MidiChords(chords)
    ensures Words(chords, pattern, w, n)[..n - 1] == Words(chords, pattern, w, n - 1)
    ensures Words(chords, pattern, w, n)[n - 1] == Tmp(chords, pattern, n, w)
  {
  }

  /** Word q is tmp after chord q. */
  lemma {:induction false} WordsAt(chords: seq<seq<int>>, pattern: seq<int>, w: nat, n: nat, q: nat)
    requires q < n <= |chords| && MidiChords(chords)
    ensures Words(chords, pattern, w, n)[q] == Tmp(chords, pattern, q + 1, w)
  {
    if q < n - 1 {
      WordsAt(chords, pattern, w, n - 1, q);
    }
  }

  // ---------------------------------------------------------------------
  // What the reports mean

  /** Pitch x occurs in one of the first n chords. */
  predicate Seen(chords: seq<seq<int>>, n: int, x: int)
  {
    exists j :: 0 <= j < n && j < |chords| && x in chords[j]
  }

  /** tmp only ever loses bits: bit i (i < m, i < w) is clear once the
      pitch of pattern position i has occurred in some chord so far. */
  lemma {:induction false} TmpBits(chords: seq<seq<int>>, pattern: seq<int>, n: nat, w: nat, i: nat)
    requires n <= |chords| && MidiChords(chords) && i < |pattern| && i < w
    ensures Bit(Tmp(chords, pattern, n, w), i) <==> !Seen(chords, n, pattern[i])
  {
    if n == 0 {
      LowMaskBit(w, i);
    } else {
      TmpBits(chords, pattern, n - 1, w, i);
      var c := chords[n - 1];
      AndAtBits(Tmp(chords, pattern, n - 1, w), Table(pattern), c, i);
      forall k | 0 <= k < |c| ensures Bit(Table(pattern)[c[k]], i) == (pattern[i] != c[k]) {
        TableBits(pattern, c[k], i);
      }
      if Seen(chords, n, pattern[i]) && !Seen(chords, n - 1, pattern[i]) {
        assert pattern[i] in c;
      }
    }
  }

  lemma TmpDecreasing(chords: seq<seq<int>>, pattern: seq<int>, n: nat, w: nat, i: nat)
    requires n < |chords| && MidiChords(chords)
    ensures Bit(Tmp(chords, pattern, n + 1, w), i) ==> Bit(Tmp(chords, pattern, n, w), i)
  {
    AndAtBits(Tmp(chords, pattern, n, w), Table(pattern), chords[n], i);
  }

  /** The report test after the words ts: bit m - 1 of e is clear,
      meaning that each of the last m words q had bit q - (|ts| - m)
      clear. */
  lemma ReportIff(ts: seq<nat>, m: nat, w: nat)
    requires 1 <= m <= w
    ensures Reported(ts, m, w) <==> LastWordsClear(ts, m)
  {
    var e := Run(Pow2(m) - 1, ts, Pow2(m) - 1);
    RunBelow(Pow2(m) - 1, ts, m);
    TopBitTest(e, m, w);
    FullRunClear(ts, m, m);
  }

  /** `e | em == em` with shiftorand's em tests the top bit of an m-bit e. */
  lemma TopBitTest(e: nat, m: nat, w: nat)
    requires 1 <= m <= w && e < Pow2(m)
    ensures OrEquals(e, Full(w) - Pow2(m - 1)) <==> !Bit(e, m - 1)
  {
    Pow2Monotone(m, w);
    ClearTest(e, w, m - 1);
  }

  /** The pitch of every pattern position k has occurred by chord
      n - m + k: the condition the unreset tmp actually tests. */
  predicate PrefixesSeen(chords: seq<seq<int>>, pattern: seq<int>, n: int)
  {
    n >= |pattern| && forall k :: 0 <= k < |pattern| ==> Seen(chords, n - |pattern| + 1 + k, pattern[k])
  }

  /** Reference scan: report window n - m .. n - 1 when the prefixes are seen. */
  function SeenScan(chords: seq<seq<int>>, pattern: seq<int>, n: nat): seq<Window>
  {
    if n == 0 then []
    else SeenScan(chords, pattern, n - 1)
         + if PrefixesSeen(chords, pattern, n) then [Window(n - |pattern|, n - 1)] else []
  }

  lemma WordBitSeen(chords: seq<seq<int>>, pattern: seq<int>, w: nat, n: nat, q: nat, k: nat)
    requires MidiChords(chords) && q < n <= |chords| && k < |pattern| && k < w
    ensures !Bit(Words(chords, pattern, w, n)[q], k) <==> Seen(chords, q + 1, pattern[k])
  {
    WordsAt(chords, pattern, w, n, q);
    TmpBits(chords, pattern, q + 1, w, k);
  }

  lemma SeenStep(chords: seq<seq<int>>, pattern: seq<int>, n: nat, w: nat)
    requires 1 <= |pattern| <= w && MidiChords(chords) && 1 <= n <= |chords|
    ensures ReportAt(chords, pattern, w, n) <==> PrefixesSeen(chords, pattern, n)
  {
    ReportIff(Words(chords, pattern, w, n), |pattern|, w);
    if PrefixesSeen(chords, pattern, n) {
      SeenClear(chords, pattern, n, w);
    }
    if LastWordsClear(Words(chords, pattern, w, n), |pattern|) {
      ClearSeen(chords, pattern, n, w);
    }
  }

  lemma SeenClear(chords: seq<seq<int>>, pattern: seq<int>, n: nat, w: nat)
    requires 1 <= |pattern| <= w && MidiChords(chords) && 1 <= n <= |chords|
    requires PrefixesSeen(chords, pattern, n)
    ensures LastWordsClear(Words(chords, pattern, w, n), |pattern|)
  {
    var m := |pattern|;
    var ws := Words(chords, pattern, w, n);
    forall q | n - m <= q < n ensures !Bit(ws[q], q - (n - m)) {
      var k := q - (n - m);
      assert Seen(chords, n - m + 1 + k, pattern[k]);
      WordBitSeen(chords, pattern, w, n, q, k);
    }
  }

  lemma ClearSeen(chords: seq<seq<int>>, pattern: seq<int>, n: nat, w: nat)
    requires 1 <= |pattern| <= w && MidiChords(chords) && 1 <= n <= |chords|
    requires LastWordsClear(Words(chords, pattern, w, n), |pattern|)
    ensures PrefixesSeen(chords, pattern, n)
  {
    var m := |pattern|;
    var ws := Words(chords, pattern, w, n);
    forall k | 0 <= k < m ensures Seen(chords, n - m + 1 + k, pattern[k]) {
      var q := n - m + k;
      assert !Bit(ws[q], q - (n - m));
      WordBitSeen(chords, pattern, w, n, q, k);
    }
  }

  lemma {:induction false} ShiftOrAndSeen(chords: seq<seq<int>>, pattern: seq<int>, n: nat, w: nat)
    requires 1 <= |pattern| <= w && MidiChords(chords) && n <= |chords|
    ensures ShiftOrAndSpec(chords, pattern, w, n) == SeenScan(chords, pattern, n)
  {
    if n > 0 {
      ShiftOrAndSeen(chords, pattern, n - 1, w);
      var r := SeenScan(chords, pattern, n - 1);
      var tail := if PrefixesSeen(chords, pattern, n) then [Window(n - |pattern|, n - 1)] else [];
      assert ShiftOrAndSpec(chords, pattern, w, n) == r + tail by {
        SeenStep(chords, pattern, n, w);
      }
    }
  }

  /** Windows of m chords ending inside the first n chords, in strictly
      increasing order of their ends (stated from the last window back). */
  predicate OrderedWindows(r: seq<Window>, m: int, n: int)
    decreases |r|
  {
    r == []
    || (var x := r[|r| - 1];
        x.end - x.start == m - 1 && 0 <= x.end < n && OrderedWindows(r[..|r| - 1], m, x.end))
  }

  /** The same property with every pair of positions spelled out. */
  lemma {:induction false} OrderedWindowsPairs(r: seq<Window>, m: int, n: int)
    requires OrderedWindows(r, m, n)
    ensures forall x :: x in r ==> x.end - x.start == m - 1 && 0 <= x.end < n
    ensures forall a, b :: 0 <= a < b < |r| ==> r[a].end < r[b].end
  {
    if r != [] {
      var r' := r[..|r| - 1];
      var last := r[|r| - 1];
      OrderedWindowsPairs(r', m, last.end);
      assert r == r' + [last];
      forall a, b | 0 <= a < b < |r| ensures r[a].end < r[b].end {
        assert r[a] == r'[a] && r'[a] in r';
        if b < |r'| {
          assert r[b] == r'[b];
        }
      }
    }
  }

  lemma OrderedWiden(r: seq<Window>, m: int, n: int, n': int)
    requires OrderedWindows(r, m, n) && n <= n'
    ensures OrderedWindows(r, m, n')
  {
  }

  lemma OrderedSnoc(r: seq<Window>, x: Window, m: int, n: int)
    requires OrderedWindows(r, m, x.end) && x.end - x.start == m - 1 && 0 <= x.end < n
    ensures OrderedWindows(r + [x], m, n)
  {
    assert (r + [x])[..|r|] == r;
  }

  lemma {:induction false} ReportsOrdered(chords: seq<seq<int>>, pattern: seq<int>, w: nat, n: nat)
    requires 1 <= |pattern| && n <= |chords| && MidiChords(chords)
    ensures OrderedWindows(ShiftOrAndSpec(chords, pattern, w, n), |pattern|, n)
  {
    if n > 0 {
      var r := ShiftOrAndSpec(chords, pattern, w, n - 1);
      ReportsOrdered(chords, pattern, w, n - 1);
      var x := Window(n - |pattern|, n - 1);
      if ReportAt(chords, pattern, w, n) {
        assert ShiftOrAndSpec(chords, pattern, w, n) == r + [x];
        OrderedSnoc(r, x, |pattern|, n);
      } else {
        assert ShiftOrAndSpec(chords, pattern, w, n) == r;
        OrderedWiden(r, |pattern|, n - 1, n);
      }
    }
  }

  /** The reports are whole windows, inside the text, ends increasing. */
  lemma ReportsSorted(chords: seq<seq<int>>, pattern: seq<int>, w: nat, n: nat)
    requires 1 <= |pattern| && n <= |chords| && MidiChords(chords)
    ensures var r := ShiftOrAndSpec(chords, pattern, w, n);
      (forall x :: x in r ==> x.end - x.start == |pattern| - 1 && 0 <= x.end < n)
      && (forall a, b :: 0 <= a < b < |r| ==> r[a].end < r[b].end)
  {
    ReportsOrdered(chords, pattern, w, n);
    OrderedWindowsPairs(ShiftOrAndSpec(chords, pattern, w, n), |pattern|, n);
  }

  // ---------------------------------------------------------------------
  // With tmp reset before each chord

  /** The pattern occurs exactly at chords s .. s + m - 1: pitch k is a
      note of chord s + k. */
  predicate ExactOccurrence(chords: seq<seq<int>>, s: int, pattern: seq<int>)
  {
    0 <= s && s + |pattern| <= |chords| && forall k :: 0 <= k < |pattern| ==> pattern[k] in chords[s + k]
  }

  function ExactScan(chords: seq<seq<int>>, pattern: seq<int>, n: nat): seq<Window>
  {
    if n == 0 then []
    else ExactScan(chords, pattern, n - 1)
         + if n >= |pattern| && ExactOccurrence(chords, n - |pattern|, pattern) then [Window(n - |pattern|, n - 1)] else []
  }

  /** The words of the first n chords when `tmp = 2 ** w - 1` starts each chord. */
  function FixedWords(chords: seq<seq<int>>, pattern: seq<int>, w: nat, n: nat): (ts: seq<nat>)
    requires n <= |chords| && MidiChords(chords)
    ensures |ts| == n
  {
    if n == 0 then [] else FixedWords(chords, pattern, w, n - 1) + [AndAt(Full(w), Table(pattern), chords[n - 1])]
  }

  predicate FixedReportAt(chords: seq<seq<int>>, pattern: seq<int>, w: nat, n: nat)
    requires 1 <= |pattern| && n <= |chords| && MidiChords(chords)
  {
    Reported(FixedWords(chords, pattern, w, n), |pattern|, w)
  }

  /** The windows reported over the first n chords with tmp reset per chord. */
  function ShiftOrAndFixed(chords: seq<seq<int>>, pattern: seq<int>, w: nat, n: nat): seq<Window>
    requires 1 <= |pattern| && n <= |chords| && MidiChords(chords)
  {
    if n == 0 then []
    else
      ShiftOrAndFixed(chords, pattern, w, n - 1)
        + if FixedReportAt(chords, pattern, w, n) then [Window(n - |pattern|, n - 1)] else []
  }

  lemma {:induction false} FixedWordsAt(chords: seq<seq<int>>, pattern: seq<int>, w: nat, n: nat, q: nat)
    requires q < n <= |chords| && MidiChords(chords)
    ensures FixedWords(chords, pattern, w, n)[q] == AndAt(Full(w), Table(pattern), chords[q])
  {
    if q < n - 1 {
      FixedWordsAt(chords, pattern, w, n - 1, q);
    }
  }

  lemma ChordWordBits(c: seq<int>, pattern: seq<int>, w: nat, k: nat)
    requires MidiPitches(c) && k < |pattern| && k < w
    ensures !Bit(AndAt(Full(w), Table(pattern), c), k) <==> pattern[k] in c
  {
    AndAtBits(Full(w), Table(pattern), c, k);
    LowMaskBit(w, k);
    forall a | 0 <= a < |c| ensures Bit(Table(pattern)[c[a]], k) == (pattern[k] != c[a]) {
      TableBits(pattern, c[a], k);
    }
  }

  lemma FixedWordBit(chords: seq<seq<int>>, pattern: seq<int>, w: nat, n: nat, q: nat, k: nat)
    requires MidiChords(chords) && q < n <= |chords| && k < |pattern| && k < w
    ensures !Bit(FixedWords(chords, pattern, w, n)[q], k) <==> pattern[k] in chords[q]
  {
    FixedWordsAt(chords, pattern, w, n, q);
    ChordWordBits(chords[q], pattern, w, k);
  }

  lemma FixedStep(chords: seq<seq<int>>, pattern: seq<int>, n: nat, w: nat)
    requires 1 <= |pattern| <= w && MidiChords(chords) && 1 <= n <= |chords|
    ensures FixedReportAt(chords, pattern, w, n) <==> n >= |pattern| && ExactOccurrence(chords, n - |pattern|, pattern)
  {
    ReportIff(FixedWords(chords, pattern, w, n), |pattern|, w);
    if n >= |pattern| && ExactOccurrence(chords, n - |pattern|, pattern) {
      OccurrenceClear(chords, pattern, n, w);
    }
    if LastWordsClear(FixedWords(chords, pattern, w, n), |pattern|) {
      ClearOccurrence(chords, pattern, n, w);
    }
  }

  lemma OccurrenceClear(chords: seq<seq<int>>, pattern: seq<int>, n: nat, w: nat)
    requires 1 <= |pattern| <= w && MidiChords(chords) && |pattern| <= n <= |chords|
    requires ExactOccurrence(chords, n - |pattern|, pattern)
    ensures LastWordsClear(FixedWords(chords, pattern, w, n), |pattern|)
  {
    var m := |pattern|;
    var ws := FixedWords(chords, pattern, w, n);
    forall q | n - m <= q < n ensures !Bit(ws[q], q - (n - m)) {
      var k := q - (n - m);
      assert pattern[k] in chords[n - m + k];
      FixedWordBit(chords, pattern, w, n, q, k);
    }
  }

  lemma ClearOccurrence(chords: seq<seq<int>>, pattern: seq<int>, n: nat, w: nat)
    requires 1 <= |pattern| <= w && MidiChords(chords) && 1 <= n <= |chords|
    requires LastWordsClear(FixedWords(chords, pattern, w, n), |pattern|)
    ensures n >= |pattern| && ExactOccurrence(chords, n - |pattern|, pattern)
  {
    var m := |pattern|;
    var ws := FixedWords(chords, pattern, w, n);
    forall k | 0 <= k < m ensures pattern[k] in chords[n - m + k] {
      var q := n - m + k;
      assert !Bit(ws[q], q - (n - m));
      FixedWordBit(chords, pattern, w, n, q, k);
    }
  }

  /** With tmp reset per chord the filter reports exactly the windows where
      the pattern occurs, chord by chord. */
  lemma {:induction false} ShiftOrAndFixedExact(chords: seq<seq<int>>, pattern: seq<int>, w: nat, n: nat)
    requires 1 <= |pattern| <= w && MidiChords(chords) && n <= |chords|
    ensures ShiftOrAndFixed(chords, pattern, w, n) == ExactScan(chords, pattern, n)
  {
    if n > 0 {
      FixedStep(chords, pattern, n, w);
      ShiftOrAndFixedExact(chords, pattern, w, n - 1);
      var r := ExactScan(chords, pattern, n - 1);
      var tail := if n >= |pattern| && ExactOccurrence(chords, n - |pattern|, pattern) then [Window(n - |pattern|, n - 1)] else [];
      assert ExactScan(chords, pattern, n) == r + tail;
      assert ShiftOrAndFixed(chords, pattern, w, n) == r + tail;
    }
  }

  lemma {:induction false} ExactScanWindows(chords: seq<seq<int>>, pattern: seq<int>, n: nat)
    ensures forall r :: r in ExactScan(chords, pattern, n) ==> ExactOccurrence(chords, r.start, pattern)
  {
    if n > 0 {
      ExactScanWindows(chords, pattern, n - 1);
    }
  }
  // ---------------------------------------------------------------------
  // Two concrete inputs, for any word length of at least three bits

  /** A major triad played note by note is found exactly once. */
  lemma ShiftOrAndTriad(chords: seq<seq<int>>, pattern: seq<int>, w: nat)
    requires chords == [[60], [64], [67]] && pattern == [60, 64, 67] && w >= 3
    ensures MidiChords(chords)
    ensures ShiftOrAndSpec(chords, pattern, w, 3) == [Window(0, 2)]
  {
    assert MidiChords(chords);
    ShiftOrAndSeen(chords, pattern, 3, w);
    TriadSeen(chords, pattern);
  }

  lemma TriadSeen(chords: seq<seq<int>>, pattern: seq<int>)
    requires chords == [[60], [64], [67]] && pattern == [60, 64, 67]
    ensures SeenScan(chords, pattern, 3) == [Window(0, 2)]
  {
    forall k | 0 <= k < 3 ensures Seen(chords, 1 + k, pattern[k]) {
      assert pattern[k] in chords[k];
    }
    assert SeenScan(chords, pattern, 2) == [] by {
      assert SeenScan(chords, pattern, 1) == [];
    }
    assert PrefixesSeen(chords, pattern, 3);
  }

  /** After the triad a chord [50] makes shiftorand report the window
      1 .. 3 too, although the pattern does not occur there. */
  lemma ShiftOrAndSpurious(chords: seq<seq<int>>, pattern: seq<int>, w: nat)
    requires chords == [[60], [64], [67], [50]] && pattern == [60, 64, 67] && w >= 3
    ensures MidiChords(chords)
    ensures Window(1, 3) in ShiftOrAndSpec(chords, pattern, w, 4)
    ensures !ExactOccurrence(chords, 1, pattern)
  {
    assert MidiChords(chords);
    ShiftOrAndSeen(chords, pattern, 4, w);
    SpuriousSeen(chords, pattern);
  }

  lemma SpuriousSeen(chords: seq<seq<int>>, pattern: seq<int>)
    requires chords == [[60], [64], [67], [50]] && pattern == [60, 64, 67]
    ensures Window(1, 3) in SeenScan(chords, pattern, 4)
    ensures !ExactOccurrence(chords, 1, pattern)
  {
    forall k | 0 <= k < 3 ensures Seen(chords, 2 + k, pattern[k]) {
      assert pattern[k] in chords[k];
    }
    assert PrefixesSeen(chords, pattern, 4);
    assert SeenScan(chords, pattern, 4) == SeenScan(chords, pattern, 3) + [Window(1, 3)];
    assert pattern[0] !in chords[1 + 0];
  }

  /** With tmp reset per chord every reported window holds the pattern. */
  lemma FixedReportsOccur(chords: seq<seq<int>>, pattern: seq<int>, w: nat, n: nat)
    requires 1 <= |pattern| <= w && MidiChords(chords) && n <= |chords|
    ensures forall x :: x in ShiftOrAndFixed(chords, pattern, w, n) ==> ExactOccurrence(chords, x.start, pattern)
  {
    ShiftOrAndFixedExact(chords, pattern, w, n);
    ExactScanWindows(chords, pattern, n);
  }

  /** With tmp reset per chord that window is not reported. */
  lemma ShiftOrAndFixedNotSpurious(chords: seq<seq<int>>, pattern: seq<int>, w: nat)
    requires chords == [[60], [64], [67], [50]] && pattern == [60, 64, 67] && w >= 3
    ensures MidiChords(chords)
    ensures Window(1, 3) !in ShiftOrAndFixed(chords, pattern, w, 4)
  {
    assert !ExactOccurrence(chords, 1, pattern) by {
      assert pattern[0] !in chords[1 + 0];
    }
    assert MidiChords(chords);
    FixedReportsOccur(chords, pattern, w, 4);
  }
}
