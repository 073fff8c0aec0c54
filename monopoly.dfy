// The filtering phase of MonoPoly (BPMIR.monopoly): a shift-and automaton
// over the boundary masks of the preprocessing, with matchcheck run on
// every window it lets through.
module Monopoly {
  import opened Bits
  import opened Records
  import opened Automaton
  import opened Preprocess
  import opened Matching

  // The source starts its state e and every entry of its table l at
  // `initial - 1` with `initial = 2 ** m - 1`.  The functions below take
  // that start value as `base`: the source's filter has
  // `base = 2 ** m - 2`; the corrected filter has `base = 2 ** m - 1`.

  /** The intervals between consecutive pattern notes modulo 12, the keys
      of the table l: entry k - 1 is `(p[k] - p[k - 1]) % 12`. */
  function Classes(pattern: seq<int>, n: nat): (r: seq<nat>)
    requires n < |pattern|
    ensures |r| == n
  {
    if n == 0 then [] else Classes(pattern, n - 1) + [(pattern[n] - pattern[n - 1]) % VOCSIZE]
  }

  lemma {:induction false} ClassesAt(pattern: seq<int>, n: nat, k: nat)
    requires k < n < |pattern|
    ensures Classes(pattern, n)[k] == (pattern[k + 1] - pattern[k]) % VOCSIZE
  {
    if k < n - 1 {
      ClassesAt(pattern, n - 1, k);
    }
  }

  /** Entry c of l: base, minus `2 ** (k - 1)` for every pattern interval
      k of class c. */
  function LEntry(pattern: seq<int>, base: nat, c: int): nat
    requires |pattern| >= 1 && base + 1 >= Pow2(|pattern| - 1)
  {
    Cleared(base, Classes(pattern, |pattern| - 1), c, |pattern| - 1)
  }

  /** The table l, one entry per interval class. */
  function LTable(pattern: seq<int>, base: nat): (l: seq<nat>)
    requires |pattern| >= 1 && base + 1 >= Pow2(|pattern| - 1)
    ensures |l| == VOCSIZE
  {
    seq(VOCSIZE, c => LEntry(pattern, base, c))
  }

  /** t[kk] after the first n classes of the inner loop: mask, and-ed with
      l[k] for each class k < n whose bit is clear in the boundary mask kk
      (the test `i[k] | kk == i[k]` with `i[k] = ONES - 2 ** k`). */
  function TEntry(l: seq<nat>, kk: nat, mask: nat, n: nat): nat
    requires n <= |l|
  {
    if n == 0 then mask
    else
      var t := TEntry(l, kk, mask, n - 1);
      if OrEquals(kk, ONES - Pow2(n - 1)) then And(t, l[n - 1]) else t
  }

  predicate MonoRange(chords: seq<seq<int>>, preprocessed: seq<nat>, pattern: seq<int>)
  {
    |pattern| >= 2 && |preprocessed| < |chords|
    && forall j :: 0 <= j < |preprocessed| ==> preprocessed[j] < ONES
  }

  /** The words fed to the automaton for the first n boundaries:
      `t[preprocessed[j]]`. */
  function MonoWords(preprocessed: seq<nat>, pattern: seq<int>, base: nat, n: nat): (ts: seq<nat>)
    requires |pattern| >= 1 && base + 1 >= Pow2(|pattern| - 1) && n <= |preprocessed|
    ensures |ts| == n
  {
    seq(n, q => MonoWord(preprocessed, pattern, base, q))
  }

  /** The word `t[preprocessed[q]]` of boundary q, 0 outside the boundaries. */
  function MonoWord(preprocessed: seq<nat>, pattern: seq<int>, base: nat, q: int): nat
    requires |pattern| >= 1 && base + 1 >= Pow2(|pattern| - 1)
  {
    if 0 <= q < |preprocessed| then
      TEntry(LTable(pattern, base), preprocessed[q], Pow2(|pattern|) - 1, |LTable(pattern, base)|)
    else 0
  }

  /** The report test `e | em == em` with `em = ONES - 2 ** (m - 2)` after
      the first n boundaries. */
  predicate MonoReportAt(preprocessed: seq<nat>, pattern: seq<int>, base: nat, n: nat)
    requires |pattern| >= 2 && base + 1 >= Pow2(|pattern| - 1) && n <= |preprocessed|
  {
    MonoReportAfter(base, MonoWords(preprocessed, pattern, base, n), |pattern|)
  }

  /** The report test after the words ts have been fed from base. */
  predicate MonoReportAfter(base: nat, ts: seq<nat>, m: nat)
    requires m >= 2
  {
    MonoHit(Run(base, ts, Pow2(m) - 1), m)
  }

  /** The report test `e | em == em` on the state e; ONES is `2 ** 12 - 1`. */
  predicate MonoHit(e: nat, m: nat)
    requires m >= 2
  {
    OrEquals(e, Full(VOCSIZE) - Pow2(m - 2))
  }

  /** The report decisions after each of the first n boundaries. */
  function MonoHits(preprocessed: seq<nat>, pattern: seq<int>, base: nat, n: nat): (hits: seq<bool>)
    requires |pattern| >= 2 && base + 1 >= Pow2(|pattern| - 1) && n <= |preprocessed|
    ensures |hits| == n
  {
    seq(n, j => ReportAfter(preprocessed, pattern, base, j))
  }

  /** The decision after boundary j, false outside the boundaries. */
  predicate ReportAfter(preprocessed: seq<nat>, pattern: seq<int>, base: nat, j: int)
    requires |pattern| >= 2 && base + 1 >= Pow2(|pattern| - 1)
  {
    0 <= j < |preprocessed| && MonoReportAt(preprocessed, pattern, base, j + 1)
  }

  lemma MonoHitsAt(preprocessed: seq<nat>, pattern: seq<int>, base: nat, n: nat, j: nat)
    requires |pattern| >= 2 && base + 1 >= Pow2(|pattern| - 1) && j < n <= |preprocessed|
    ensures MonoHits(preprocessed, pattern, base, n)[j] == MonoReportAt(preprocessed, pattern, base, j + 1)
  {
  }

  lemma MonoHitsAll(preprocessed: seq<nat>, pattern: seq<int>, base: nat, n: nat)
    requires |pattern| >= 2 && base + 1 >= Pow2(|pattern| - 1) && n <= |preprocessed|
    ensures forall j :: 0 <= j < n ==>
              MonoHits(preprocessed, pattern, base, n)[j] == MonoReportAt(preprocessed, pattern, base, j + 1)
  {
    forall j | 0 <= j < n
      ensures MonoHits(preprocessed, pattern, base, n)[j] == MonoReportAt(preprocessed, pattern, base, j + 1)
    {
      MonoHitsAt(preprocessed, pattern, base, n, j);
    }
  }

  /** The result of the filter with e and l started at base. */
  function MonopolySpec(chords: seq<seq<int>>, preprocessed: seq<nat>, pattern: seq<int>, base: nat)
    : seq<Option<seq<Match>>>
    requires MonoRange(chords, preprocessed, pattern) && base + 1 >= Pow2(|pattern| - 1)
  {
    Reports(chords, pattern, MonoHits(preprocessed, pattern, base, |preprocessed|))
  }

  /** monopoly as written: e and l start at `2 ** m - 2`.  For a pattern
      of fewer than two notes the source computes a fractional `em` and
      fails at the first report test, so it needs no boundaries then. */
  method Monopoly(chords: seq<seq<int>>, preprocessed: seq<nat>, pattern: seq<int>)
    returns (results: seq<Option<seq<Match>>>)
    requires |pattern| >= 2 || preprocessed == []
    requires |preprocessed| < |chords|
    requires forall j :: 0 <= j < |preprocessed| ==> preprocessed[j] < ONES
    ensures |pattern| < 2 ==> results == []
    ensures |pattern| >= 2 ==> Pow2(|pattern|) >= 2
    ensures |pattern| >= 2 ==>
              results == MonopolySpec(chords, preprocessed, pattern, Pow2(|pattern|) - 2)
  {
    if |pattern| < 2 {
      return [];
    }
    Pow2Monotone(|pattern| - 1, |pattern|);
    results := MonopolyFilter(chords, preprocessed, pattern, Pow2(|pattern|) - 2);
  }

  /** The filter with e and l started at `initial = 2 ** m - 1`, the
      all-ones state of the automaton. */
  method MonopolyCorrected(chords: seq<seq<int>>, preprocessed: seq<nat>, pattern: seq<int>)
    returns (results: seq<Option<seq<Match>>>)
    requires MonoRange(chords, preprocessed, pattern)
    ensures Pow2(|pattern|) >= 1
    ensures results == MonopolySpec(chords, preprocessed, pattern, Full(|pattern|))
  {
    Pow2Monotone(|pattern| - 1, |pattern|);
    results := MonopolyFilter(chords, preprocessed, pattern, Full(|pattern|));
  }

  /** The body of monopoly with e and the entries of l started at base. */
  method MonopolyFilter(chords: seq<seq<int>>, preprocessed: seq<nat>, pattern: seq<int>, base: nat)
    returns (results: seq<Option<seq<Match>>>)
    requires MonoRange(chords, preprocessed, pattern) && base + 1 >= Pow2(|pattern| - 1)
    ensures results == MonopolySpec(chords, preprocessed, pattern, base)
  {
    var m := |pattern|;
    var mask := Pow2(m) - 1;
    var l := BuildL(pattern, base);
    var t := BuildT(l, mask);
    ghost var ws, hits := MonoTrace(preprocessed, pattern, base, l, t);
    results := RunFilter(chords, preprocessed, pattern, base, t, ws, hits);
    TraceIsSpec(preprocessed, pattern, base, ws, hits);
  }

  /** The loop of monopoly over the boundaries, from the table t whose
      entries at the boundaries' masks are the words ws. */
  method RunFilter(chords: seq<seq<int>>, preprocessed: seq<nat>, pattern: seq<int>, base: nat,
                   t: seq<nat>, ghost ws: seq<nat>, ghost hits: seq<bool>)
    returns (results: seq<Option<seq<Match>>>)
    requires MonoRange(chords, preprocessed, pattern)
    requires |ws| == |preprocessed| && forall j :: 0 <= j < |ws| ==> preprocessed[j] < |t| && t[preprocessed[j]] == ws[j]
    requires Traced(|pattern|, base, ws, hits)
    ensures results == Reports(chords, pattern, hits)
  {
    var m := |pattern|;
    var mask := Pow2(m) - 1;
    var em := ONES - Pow2(m - 2);
    results := [];
    var e := base;
    for j := 0 to |preprocessed|
      invariant e == Run(base, ws[..j], mask)
      invariant results == Reports(chords, pattern, hits[..j])
    {
      var word := t[preprocessed[j]];
      RunPrefix(base, ws, j, mask);
      e := Step(e, word, mask);
      var hit := OrEquals(e, em);
      results := AddReport(chords, pattern, hits, j, results, hit);
    }
    assert hits[..|preprocessed|] == hits;
  }

  /** lib/bpmir.rb:62-69: l starts at base everywhere and loses `2 ** (k - 1)` at
      the class of each pattern interval k. */
  method BuildL(pattern: seq<int>, base: nat) returns (l: seq<nat>)
    requires |pattern| >= 1 && base + 1 >= Pow2(|pattern| - 1)
    ensures l == LTable(pattern, base)
  {
    var keys := Classes(pattern, |pattern| - 1);
    l := [];
    for c := 0 to VOCSIZE
      invariant |l| == c && forall c' :: 0 <= c' < c ==> l[c'] == base
    {
      l := l + [base];
    }
    for k := 1 to |pattern|
      invariant |l| == VOCSIZE && Pow2(k - 1) <= Pow2(|pattern| - 1)
      invariant forall c :: 0 <= c < VOCSIZE ==> l[c] == Cleared(base, keys, c, k - 1)
    {
      var c := (pattern[k] - pattern[k - 1]) % VOCSIZE;
      ClassesAt(pattern, |pattern| - 1, k - 1);
      Pow2Monotone(k, |pattern| - 1);
      assert l[c] - Pow2(k - 1) == Cleared(base, keys, c, k);
      l := l[c := l[c] - Pow2(k - 1)];
    }
    assert forall c :: 0 <= c < VOCSIZE ==> l[c] == LTable(pattern, base)[c];
  }

  /** lib/bpmir.rb:71-77: the 4095-entry table t. */
  method BuildT(l: seq<nat>, mask: nat) returns (t: seq<nat>)
    requires |l| == VOCSIZE
    ensures |t| == ONES
    ensures forall kk :: 0 <= kk < ONES ==> t[kk] == TEntry(l, kk, mask, |l|)
  {
    t := [];
    for kk := 0 to ONES
      invariant |t| == kk
      invariant forall kk' :: 0 <= kk' < kk ==> t[kk'] == TEntry(l, kk', mask, |l|)
    {
      var x := mask;
      for k := 0 to VOCSIZE
        invariant x == TEntry(l, kk, mask, k)
      {
        var ivect := ONES - Pow2(k);
        if OrEquals(kk, ivect) {
          x := And(x, l[k]);
        }
      }
      t := t + [x];
    }
  }

  /** The table the method builds holds, for each boundary, its word. */
  lemma TableWords(preprocessed: seq<nat>, pattern: seq<int>, base: nat, l: seq<nat>, t: seq<nat>, ws: seq<nat>)
    requires |pattern| >= 1 && base + 1 >= Pow2(|pattern| - 1)
    requires forall j :: 0 <= j < |preprocessed| ==> preprocessed[j] < ONES
    requires l == LTable(pattern, base) && |t| == ONES
    requires forall kk :: 0 <= kk < ONES ==> t[kk] == TEntry(l, kk, Pow2(|pattern|) - 1, |l|)
    requires ws == MonoWords(preprocessed, pattern, base, |preprocessed|)
    ensures forall j :: 0 <= j < |preprocessed| ==> t[preprocessed[j]] == ws[j]
  {
    forall j | 0 <= j < |preprocessed| ensures t[preprocessed[j]] == ws[j] {
      assert ws[j] == MonoWord(preprocessed, pattern, base, j);
    }
  }

  /** Decision j is the report test on the state after words 0 .. j. */
  lemma HitAtWords(preprocessed: seq<nat>, pattern: seq<int>, base: nat, j: nat)
    requires |pattern| >= 2 && base + 1 >= Pow2(|pattern| - 1) && j < |preprocessed|
    ensures MonoHits(preprocessed, pattern, base, |preprocessed|)[j]
            == OrEquals(Run(base, MonoWords(preprocessed, pattern, base, |preprocessed|)[..j + 1], Pow2(|pattern|) - 1),
                        ONES - Pow2(|pattern| - 2))
  {
    OnesFull();
    MonoHitsAt(preprocessed, pattern, base, |preprocessed|, j);
    MonoWordsPrefix(preprocessed, pattern, base, |preprocessed|, j + 1);
  }

  /** hits are the decisions of an m-note pattern's filter fed the words ws. */
  predicate Traced(m: nat, base: nat, ws: seq<nat>, hits: seq<bool>)
    requires m >= 2
  {
    |hits| == |ws|
    && forall j :: 0 <= j < |hits| ==>
         hits[j] == OrEquals(Run(base, ws[..j + 1], Pow2(m) - 1), ONES - Pow2(m - 2))
  }

  /** ws are the words of the boundaries. */
  predicate WordsSpec(preprocessed: seq<nat>, pattern: seq<int>, base: nat, ws: seq<nat>)
    requires |pattern| >= 1 && base + 1 >= Pow2(|pattern| - 1)
  {
    |ws| == |preprocessed| && forall j :: 0 <= j < |ws| ==> ws[j] == MonoWord(preprocessed, pattern, base, j)
  }

  /** The words and decisions of the filter, described boundary by
      boundary through the table the method builds. */
  lemma MonoTrace(preprocessed: seq<nat>, pattern: seq<int>, base: nat, l: seq<nat>, t: seq<nat>)
    returns (ws: seq<nat>, hits: seq<bool>)
    requires |pattern| >= 2 && base + 1 >= Pow2(|pattern| - 1)
    requires forall j :: 0 <= j < |preprocessed| ==> preprocessed[j] < ONES
    requires l == LTable(pattern, base) && |t| == ONES
    requires forall kk :: 0 <= kk < ONES ==> t[kk] == TEntry(l, kk, Pow2(|pattern|) - 1, |l|)
    ensures |ws| == |preprocessed| && forall j :: 0 <= j < |ws| ==> t[preprocessed[j]] == ws[j]
    ensures WordsSpec(preprocessed, pattern, base, ws) && Traced(|pattern|, base, ws, hits)
  {
    ws := MonoWords(preprocessed, pattern, base, |preprocessed|);
    hits := MonoHits(preprocessed, pattern, base, |preprocessed|);
    TableWords(preprocessed, pattern, base, l, t, ws);
    forall j | 0 <= j < |hits|
      ensures hits[j] == OrEquals(Run(base, ws[..j + 1], Pow2(|pattern|) - 1), ONES - Pow2(|pattern| - 2))
    {
      HitAtWords(preprocessed, pattern, base, j);
    }
  }

  /** Words and decisions that agree with the filter's boundary by
      boundary are the filter's. */
  lemma TraceIsSpec(preprocessed: seq<nat>, pattern: seq<int>, base: nat, ws: seq<nat>, hits: seq<bool>)
    requires |pattern| >= 2 && base + 1 >= Pow2(|pattern| - 1)
    requires WordsSpec(preprocessed, pattern, base, ws) && Traced(|pattern|, base, ws, hits)
    ensures hits == MonoHits(preprocessed, pattern, base, |preprocessed|)
  {
    var hits' := MonoHits(preprocessed, pattern, base, |preprocessed|);
    forall j | 0 <= j < |hits| ensures hits[j] == hits'[j] {
      HitIsSpec(preprocessed, pattern, base, ws, hits, j);
    }
  }

  lemma HitIsSpec(preprocessed: seq<nat>, pattern: seq<int>, base: nat, ws: seq<nat>, hits: seq<bool>, j: nat)
    requires |pattern| >= 2 && base + 1 >= Pow2(|pattern| - 1)
    requires WordsSpec(preprocessed, pattern, base, ws) && Traced(|pattern|, base, ws, hits)
    requires j < |hits|
    ensures hits[j] == ReportAfter(preprocessed, pattern, base, j)
  {
    OnesFull();
    assert ws[..j + 1] == MonoWords(preprocessed, pattern, base, j + 1);
    assert hits[j] == OrEquals(Run(base, ws[..j + 1], Pow2(|pattern|) - 1), ONES - Pow2(|pattern| - 2));
  }

  lemma MonoWordsPrefix(preprocessed: seq<nat>, pattern: seq<int>, base: nat, n: nat, k: nat)
    requires |pattern| >= 1 && base + 1 >= Pow2(|pattern| - 1) && k <= n <= |preprocessed|
    ensures MonoWords(preprocessed, pattern, base, n)[..k] == MonoWords(preprocessed, pattern, base, k)
  {
  }

  // ---------------------------------------------------------------------
  // What the corrected filter reports

  /** Bit i survives the first n steps of the inner loop that builds
      t[kk]: every class k < n with a clear bit in kk has bit i in l[k]. */
  predicate KeptBy(l: seq<nat>, kk: nat, i: nat, n: nat)
    requires n <= |l|
  {
    n == 0 || (KeptBy(l, kk, i, n - 1) && (Bit(kk, n - 1) || Bit(l[n - 1], i)))
  }

  lemma {:induction false} TEntryBits(l: seq<nat>, kk: nat, mask: nat, n: nat, i: nat)
    requires n <= |l| && n <= VOCSIZE && kk <= ONES
    ensures Bit(TEntry(l, kk, mask, n), i) == (Bit(mask, i) && KeptBy(l, kk, i, n))
  {
    if n > 0 {
      TEntryBits(l, kk, mask, n - 1, i);
      Pow2Twelve();
      ClearTest(kk, VOCSIZE, n - 1);
      AndBit(TEntry(l, kk, mask, n - 1), l[n - 1], i);
    }
  }

  /** With l started at all m ones, bit b < m - 1 of l[c] is clear exactly
      at the class of pattern interval b. */
  lemma LFixedBit(pattern: seq<int>, c: int, b: nat)
    requires |pattern| >= 2 && b < |pattern| - 1
    ensures Pow2(|pattern| - 1) <= Pow2(|pattern|)
    ensures Bit(LEntry(pattern, Full(|pattern|), c), b) == (Classes(pattern, |pattern| - 1)[b] != c)
  {
    ClearedBits(|pattern|, Classes(pattern, |pattern| - 1), c, |pattern| - 1, b);
  }

  lemma {:induction false} KeptClass(pattern: seq<int>, kk: nat, b: nat, n: nat)
    requires |pattern| >= 2 && b < |pattern| - 1 && n <= VOCSIZE
    ensures Pow2(|pattern| - 1) <= Pow2(|pattern|)
    ensures var cl := Classes(pattern, |pattern| - 1)[b];
            KeptBy(LTable(pattern, Full(|pattern|)), kk, b, n) == (cl < n ==> Bit(kk, cl))
  {
    Pow2Monotone(|pattern| - 1, |pattern|);
    if n > 0 {
      KeptClass(pattern, kk, b, n - 1);
      LFixedBit(pattern, n - 1, b);
      ClassesAt(pattern, |pattern| - 1, b);
    }
  }

  /** Bit b of the corrected word for boundary q is clear exactly when the
      mask of that boundary allows pattern interval b. */
  lemma FixedWordBit(preprocessed: seq<nat>, pattern: seq<int>, n: nat, q: nat, b: nat)
    requires |pattern| >= 2 && b < |pattern| - 1 && q < n <= |preprocessed| && preprocessed[q] < ONES
    ensures Pow2(|pattern| - 1) <= Pow2(|pattern|)
    ensures !Bit(MonoWords(preprocessed, pattern, Full(|pattern|), n)[q], b)
            <==> MaskAllows(preprocessed[q], pattern[b + 1] - pattern[b])
  {
    var m := |pattern|;
    Pow2Monotone(m - 1, m);
    var l := LTable(pattern, Full(m));
    TEntryBits(l, preprocessed[q], Pow2(m) - 1, |l|, b);
    LowMaskBit(m, b);
    KeptClass(pattern, preprocessed[q], b, |l|);
    ClassesAt(pattern, m - 1, b);
    MaskAllowsIff(preprocessed[q], pattern[b + 1] - pattern[b]);
  }

  /** For 2 <= m <= 12 the corrected filter reports after boundary n - 1
      exactly when the window starting at n - m + 1 exists and every one
      of its boundaries allows the pattern interval there: the windows
      directcheck2 examines. */
  lemma MonoFixedReportIff(preprocessed: seq<nat>, pattern: seq<int>, n: nat)
    requires 2 <= |pattern| <= VOCSIZE && 1 <= n <= |preprocessed|
    requires forall j :: 0 <= j < |preprocessed| ==> preprocessed[j] < ONES
    ensures Pow2(|pattern| - 1) <= Pow2(|pattern|)
    ensures MonoReportAt(preprocessed, pattern, Full(|pattern|), n) <==> ClosesWindow(preprocessed, pattern, n)
  {
    Pow2Monotone(|pattern| - 1, |pattern|);
    MonoReportAtIff(preprocessed, pattern, n);
    ClearBoundary(preprocessed, pattern, n);
    BoundaryClear(preprocessed, pattern, n);
  }

  lemma MonoReportAtIff(preprocessed: seq<nat>, pattern: seq<int>, n: nat)
    requires 2 <= |pattern| <= VOCSIZE && n <= |preprocessed|
    requires Pow2(|pattern| - 1) <= Pow2(|pattern|)
    ensures MonoReportAt(preprocessed, pattern, Full(|pattern|), n)
            <==> LastWordsClear(MonoWords(preprocessed, pattern, Full(|pattern|), n), |pattern| - 1)
  {
    MonoReportedIff(MonoWords(preprocessed, pattern, Full(|pattern|), n), |pattern|);
  }

  /** From the all-ones state, the test with `em = ONES - 2 ** (m - 2)`
      asks whether the last m - 1 words cleared the diagonal. */
  lemma MonoReportedIff(ts: seq<nat>, m: nat)
    requires 2 <= m <= VOCSIZE
    ensures MonoReportAfter(Full(m), ts, m) <==> LastWordsClear(ts, m - 1)
  {
    var e := Run(Full(m), ts, Pow2(m) - 1);
    RunBelow(Full(m), ts, m);
    SecondBitTest(e, m, VOCSIZE);
    FullRunClear(ts, m, m - 1);
  }

  /** On an m-bit state with m <= w, `e | em == em` with
      `em = 2 ** w - 1 - 2 ** (m - 2)` tests bit m - 2. */
  lemma SecondBitTest(e: nat, m: nat, w: nat)
    requires 2 <= m <= w && e < Pow2(m)
    ensures OrEquals(e, Full(w) - Pow2(m - 2)) <==> !Bit(e, m - 1 - 1)
    ensures w == VOCSIZE ==> (MonoHit(e, m) <==> !Bit(e, m - 1 - 1))
  {
    Pow2Monotone(m, w);
    ClearTest(e, w, m - 2);
  }

  lemma ClearBoundary(preprocessed: seq<nat>, pattern: seq<int>, n: nat)
    requires 2 <= |pattern| && 1 <= n <= |preprocessed|
    requires forall j :: 0 <= j < |preprocessed| ==> preprocessed[j] < ONES
    requires Pow2(|pattern| - 1) <= Pow2(|pattern|)
    ensures LastWordsClear(MonoWords(preprocessed, pattern, Full(|pattern|), n), |pattern| - 1)
            ==> n >= |pattern| - 1 && BoundaryOk(preprocessed, n - |pattern| + 1, pattern)
  {
    if !LastWordsClear(MonoWords(preprocessed, pattern, Full(|pattern|), n), |pattern| - 1) {
      return;
    }
    forall i | 0 <= i < |pattern| - 1
      ensures MaskAllows(preprocessed[n - |pattern| + 1 + i], pattern[i + 1] - pattern[i])
    {
      ClearAt(preprocessed, pattern, n, i);
    }
  }

  lemma ClearAt(preprocessed: seq<nat>, pattern: seq<int>, n: nat, i: nat)
    requires 2 <= |pattern| && 1 <= n <= |preprocessed| && i < |pattern| - 1 && n >= |pattern| - 1
    requires preprocessed[n - |pattern| + 1 + i] < ONES
    requires LastWordsClear(MonoWords(preprocessed, pattern, Full(|pattern|), n), |pattern| - 1)
    ensures MaskAllows(preprocessed[n - |pattern| + 1 + i], pattern[i + 1] - pattern[i])
  {
    var q := n - |pattern| + 1 + i;
    var ws := MonoWords(preprocessed, pattern, Full(|pattern|), n);
    LastWordClear(ws, |pattern| - 1, q);
    FixedWordBit(preprocessed, pattern, n, q, i);
  }

  lemma BoundaryClear(preprocessed: seq<nat>, pattern: seq<int>, n: nat)
    requires 2 <= |pattern| && 1 <= n <= |preprocessed|
    requires forall j :: 0 <= j < |preprocessed| ==> preprocessed[j] < ONES
    requires Pow2(|pattern| - 1) <= Pow2(|pattern|)
    ensures n >= |pattern| - 1 && BoundaryOk(preprocessed, n - |pattern| + 1, pattern)
            ==> LastWordsClear(MonoWords(preprocessed, pattern, Full(|pattern|), n), |pattern| - 1)
  {
    if !(n >= |pattern| - 1 && BoundaryOk(preprocessed, n - |pattern| + 1, pattern)) {
      return;
    }
    var ws := MonoWords(preprocessed, pattern, Full(|pattern|), n);
    forall q | |ws| - (|pattern| - 1) <= q < |ws| ensures !Bit(ws[q], q - (|ws| - (|pattern| - 1))) {
      AllowedAt(preprocessed, pattern, n, q);
    }
  }

  lemma AllowedAt(preprocessed: seq<nat>, pattern: seq<int>, n: nat, q: nat)
    requires 2 <= |pattern| && n - (|pattern| - 1) <= q < n <= |preprocessed| && n >= |pattern| - 1
    requires preprocessed[q] < ONES
    requires BoundaryOk(preprocessed, n - |pattern| + 1, pattern)
    ensures !Bit(MonoWords(preprocessed, pattern, Full(|pattern|), n)[q], q - (n - (|pattern| - 1)))
  {
    var i := q - (n - |pattern| + 1);
    BoundaryAt(preprocessed, n - |pattern| + 1, pattern, i);
    FixedWordBit(preprocessed, pattern, n, q, i);
  }

  // ---------------------------------------------------------------------
  // The corrected filter against directcheck2

  /** Reports made exactly after the boundaries that close a window whose
      masks allow the pattern give, flattened, what directcheck2 gives for
      its first k windows. */
  lemma {:induction false} ReportsAsDirectCheck2(chords: seq<seq<int>>, preprocessed: seq<nat>, pattern: seq<int>,
                                                 hits: seq<bool>, k: nat)
    requires |pattern| >= 2 && |preprocessed| < |chords|
    requires |hits| <= |preprocessed| && |hits| == k + |pattern| - 2
    requires forall j :: 0 <= j < |hits| ==> WindowReport(preprocessed, pattern, hits, j)
    ensures Flatten(Reports(chords, pattern, hits)) == DirectCheck2UpTo(chords, preprocessed, pattern, k)
  {
    if k == 0 {
      NoWindowYet(preprocessed, pattern, hits);
      NoReports(chords, pattern, hits);
    } else {
      var front := hits[..|hits| - 1];
      FrontWindows(preprocessed, pattern, hits, front);
      ReportsAsDirectCheck2(chords, preprocessed, pattern, front, k - 1);
      WindowSnoc(chords, preprocessed, pattern, hits, front, k);
    }
  }

  /** One more boundary closes window k - 1. */
  lemma WindowSnoc(chords: seq<seq<int>>, preprocessed: seq<nat>, pattern: seq<int>,
                   hits: seq<bool>, front: seq<bool>, k: nat)
    requires |pattern| >= 2 && |preprocessed| < |chords| && k >= 1
    requires |hits| <= |preprocessed| && |hits| == k + |pattern| - 2 && front == hits[..|hits| - 1]
    requires WindowReport(preprocessed, pattern, hits, |hits| - 1)
    requires Flatten(Reports(chords, pattern, front)) == DirectCheck2UpTo(chords, preprocessed, pattern, k - 1)
    ensures Flatten(Reports(chords, pattern, hits)) == DirectCheck2UpTo(chords, preprocessed, pattern, k)
  {
    LastWindow(chords, preprocessed, pattern, hits, k - 1);
    Direct2Snoc(chords, preprocessed, pattern, k);
  }

  /** hits[j] is the report that closes window j - m + 2, made exactly when
      that window exists and its masks allow the pattern. */
  predicate WindowReport(preprocessed: seq<nat>, pattern: seq<int>, hits: seq<bool>, j: nat)
    requires |pattern| >= 2 && j < |hits| <= |preprocessed|
  {
    hits[j] <==> ClosesWindow(preprocessed, pattern, j + 1)
  }

  /** Boundary n - 1 closes a window whose masks allow the pattern: the
      window starting at n - m + 1 exists and passes the directcheck2 test. */
  predicate ClosesWindow(preprocessed: seq<nat>, pattern: seq<int>, n: nat)
    requires |pattern| >= 2 && n <= |preprocessed|
  {
    n >= |pattern| - 1 && BoundaryOk(preprocessed, n - |pattern| + 1, pattern)
  }

  /** Before the first window closes nothing is reported. */
  lemma NoWindowYet(preprocessed: seq<nat>, pattern: seq<int>, hits: seq<bool>)
    requires |pattern| >= 2 && |hits| <= |preprocessed| && |hits| <= |pattern| - 2
    requires forall j :: 0 <= j < |hits| ==> WindowReport(preprocessed, pattern, hits, j)
    ensures forall j :: 0 <= j < |hits| ==> !hits[j]
  {
    forall j | 0 <= j < |hits| ensures !hits[j] {
      assert WindowReport(preprocessed, pattern, hits, j);
    }
  }

  /** The reports of a prefix close the same windows. */
  lemma FrontWindows(preprocessed: seq<nat>, pattern: seq<int>, hits: seq<bool>, front: seq<bool>)
    requires |pattern| >= 2 && 1 <= |hits| <= |preprocessed| && front == hits[..|hits| - 1]
    requires forall j :: 0 <= j < |hits| ==> WindowReport(preprocessed, pattern, hits, j)
    ensures forall j :: 0 <= j < |front| ==> WindowReport(preprocessed, pattern, front, j)
  {
    forall j | 0 <= j < |front| ensures WindowReport(preprocessed, pattern, front, j) {
      assert WindowReport(preprocessed, pattern, hits, j);
    }
  }

  lemma LastWindow(chords: seq<seq<int>>, preprocessed: seq<nat>, pattern: seq<int>, hits: seq<bool>, s: nat)
    requires |pattern| >= 2 && |preprocessed| < |chords| && |hits| <= |preprocessed|
    requires |hits| == s + |pattern| - 1
    requires WindowReport(preprocessed, pattern, hits, |hits| - 1)
    ensures Flatten(Reports(chords, pattern, hits))
            == Flatten(Reports(chords, pattern, hits[..|hits| - 1]))
               + if BoundaryOk(preprocessed, s, pattern) then MatchCheckSpec(chords, s, pattern) else []
  {
    var front := Reports(chords, pattern, hits[..|hits| - 1]);
    var extra := if hits[|hits| - 1] then [CheckAt(chords, |hits| - |pattern| + 1, pattern)] else [];
    assert Reports(chords, pattern, hits) == front + extra;
    FlattenSnoc(front, extra);
  }

  lemma HitWindow(preprocessed: seq<nat>, pattern: seq<int>, hit: bool, j: nat)
    requires 2 <= |pattern| <= VOCSIZE && j < |preprocessed|
    requires forall j :: 0 <= j < |preprocessed| ==> preprocessed[j] < ONES
    requires Pow2(|pattern| - 1) <= Pow2(|pattern|)
    requires hit == MonoReportAt(preprocessed, pattern, Full(|pattern|), j + 1)
    ensures hit <==> ClosesWindow(preprocessed, pattern, j + 1)
  {
    MonoFixedReportIff(preprocessed, pattern, j + 1);
  }

  /** For 2 <= m <= 12, monopoly with e and l started at `initial`
      reports exactly the matches directcheck2 reports, window by window
      in the same order: both pass over the same boundary-mask test. */
  lemma MonopolyAsDirectCheck2(chords: seq<seq<int>>, preprocessed: seq<nat>, pattern: seq<int>)
    requires MonoRange(chords, preprocessed, pattern) && |pattern| <= VOCSIZE
    ensures Pow2(|pattern| - 1) <= Pow2(|pattern|)
    ensures Flatten(MonopolySpec(chords, preprocessed, pattern, Full(|pattern|)))
            == DirectCheck2Spec(chords, preprocessed, pattern)
  {
    Pow2Monotone(|pattern| - 1, |pattern|);
    var hits := MonoHits(preprocessed, pattern, Full(|pattern|), |preprocessed|);
    MonoHitsAll(preprocessed, pattern, Full(|pattern|), |preprocessed|);
    FixedHitsReport(chords, preprocessed, pattern, hits);
  }

  lemma FixedHitsReport(chords: seq<seq<int>>, preprocessed: seq<nat>, pattern: seq<int>, hits: seq<bool>)
    requires MonoRange(chords, preprocessed, pattern) && |pattern| <= VOCSIZE
    requires Pow2(|pattern| - 1) <= Pow2(|pattern|)
    requires |hits| == |preprocessed|
    requires forall j :: 0 <= j < |hits| ==> hits[j] == MonoReportAt(preprocessed, pattern, Full(|pattern|), j + 1)
    ensures Flatten(Reports(chords, pattern, hits)) == DirectCheck2Spec(chords, preprocessed, pattern)
  {
    var m := |pattern|;
    forall j | 0 <= j < |hits| ensures WindowReport(preprocessed, pattern, hits, j) {
      HitWindow(preprocessed, pattern, hits[j], j);
    }
    if |preprocessed| <= m - 2 {
      NoWindowYet(preprocessed, pattern, hits);
      NoReports(chords, pattern, hits);
    } else {
      ReportsAsDirectCheck2(chords, preprocessed, pattern, hits, |preprocessed| - m + 2);
    }
  }
}
