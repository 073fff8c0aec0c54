// The start value of monopoly's state and table, as written
// (`initial - 1`, lib/bpmir.rb:58 and 64) and as intended (`initial`):
// what the lower start does to the table for every pattern, and a
// three-chord input on which it loses the only match.
module MonopolyBorrow {
  import opened Bits
  import opened Records
  import opened Automaton
  import opened Preprocess
  import opened Matching
  import opened Monopoly

  // ---------------------------------------------------------------------
  // The borrow, for every pattern

  /** Starting the subtractions one lower leaves the entry one lower. */
  lemma {:induction false} ClearedLower(base: nat, keys: seq<int>, key: int, q: nat)
    requires q <= |keys| && base >= Pow2(q)
    ensures Cleared(base - 1, keys, key, q) + 1 == Cleared(base, keys, key, q)
  {
    if q > 0 {
      Pow2Monotone(q - 1, q);
      ClearedLower(base, keys, key, q - 1);
    }
  }

  /** The entry of class c when l starts one lower is one lower. */
  lemma LEntryLower(pattern: seq<int>, base: nat, c: int)
    requires |pattern| >= 2 && base >= Pow2(|pattern| - 1)
    ensures LEntry(pattern, base - 1, c) + 1 == LEntry(pattern, base, c)
  {
    ClearedLower(base, Classes(pattern, |pattern| - 1), c, |pattern| - 1);
  }

  /** From the even start `2 ** w - 2`, the first subtraction (of 1) makes
      the entry of its key odd, and every later one takes off an even
      amount: bit 0 ends set exactly in the entry of keys[0]. */
  lemma {:induction false} BorrowedBit(w: nat, base: nat, keys: seq<int>, key: int, q: nat)
    requires 1 <= q <= |keys| && q < w && base + 2 == Pow2(w)
    ensures base + 1 >= Pow2(q)
    ensures Bit(Cleared(base, keys, key, q), 0) <==> keys[0] == key
  {
    Pow2Monotone(q + 1, w);
    var prev := Cleared(base, keys, key, q - 1);
    if q == 1 {
      assert Pow2(w) == 2 * Pow2(w - 1);
      assert prev == base;
    } else {
      BorrowedBit(w, base, keys, key, q - 1);
      if keys[q - 1] == key {
        assert Pow2(q - 1) == 2 * Pow2(q - 2);
        EvenOff(prev, Pow2(q - 2));
      }
    }
  }

  /** Taking off an even amount keeps bit 0. */
  lemma EvenOff(x: nat, y: nat)
    requires x >= 2 * y
    ensures Bit(x - 2 * y, 0) == Bit(x, 0)
  {
  }

  /** As written (base `2 ** m - 2`), bit 0 (the bit of the first pattern
      interval) of l[c] is set exactly at that interval's class and clear
      at every other class: the reverse of the intended table, where that
      bit is clear exactly at that class (LFixedBit).  The first
      subtraction, of `2 ** 0` from the even start, borrows. */
  lemma BorrowedEntry(pattern: seq<int>, base: nat, c: int)
    requires |pattern| >= 2 && base + 2 == Pow2(|pattern|)
    ensures base + 1 >= Pow2(|pattern| - 1)
    ensures Bit(LEntry(pattern, base, c), 0) <==> c == (pattern[1] - pattern[0]) % VOCSIZE
  {
    var m := |pattern|;
    BorrowedBit(m, base, Classes(pattern, m - 1), c, m - 1);
    ClassesAt(pattern, m - 1, 0);
  }

  lemma {:induction false} BorrowedKept(pattern: seq<int>, base: nat, kk: nat, n: nat)
    requires |pattern| >= 2 && base + 2 == Pow2(|pattern|) && n <= VOCSIZE
    ensures base + 1 >= Pow2(|pattern| - 1)
    ensures !KeptBy(LTable(pattern, base), kk, 0, n)
            <==> exists c :: 0 <= c < n && c != (pattern[1] - pattern[0]) % VOCSIZE && !Bit(kk, c)
  {
    BorrowedEntry(pattern, base, 0);
    if n > 0 {
      var l := LTable(pattern, base);
      BorrowedKept(pattern, base, kk, n - 1);
      assert Bit(l[n - 1], 0) <==> n - 1 == (pattern[1] - pattern[0]) % VOCSIZE by {
        BorrowedEntry(pattern, base, n - 1);
      }
      assert KeptBy(l, kk, 0, n) == (KeptBy(l, kk, 0, n - 1) && (Bit(kk, n - 1) || Bit(l[n - 1], 0)));
      var c1 := (pattern[1] - pattern[0]) % VOCSIZE;
      if KeptBy(l, kk, 0, n) {
        assert KeptBy(l, kk, 0, n - 1);
        assert forall c :: 0 <= c < n - 1 && c != c1 ==> Bit(kk, c);
        assert n - 1 != c1 ==> Bit(kk, n - 1);
      } else if !KeptBy(l, kk, 0, n - 1) {
        var c :| 0 <= c < n - 1 && c != c1 && !Bit(kk, c);
        assert 0 <= c < n && c != c1 && !Bit(kk, c);
      } else {
        assert 0 <= n - 1 < n && n - 1 != c1 && !Bit(kk, n - 1);
        assert exists c :: 0 <= c < n && c != (pattern[1] - pattern[0]) % VOCSIZE && !Bit(kk, c);
      }
    }
  }

  /** As written, bit 0 of the word read at a boundary of mask kk is clear
      exactly when kk allows some interval class other than the first
      pattern interval's; the intended word has it clear exactly when kk
      allows that class (FixedWordBit). */
  lemma BorrowedWordBit(pattern: seq<int>, kk: nat)
    requires |pattern| >= 2 && kk <= ONES
    ensures Pow2(|pattern|) >= 2 && Pow2(|pattern|) - 1 >= Pow2(|pattern| - 1)
    ensures !Bit(TEntry(LTable(pattern, Pow2(|pattern|) - 2), kk, Pow2(|pattern|) - 1, VOCSIZE), 0)
            <==> exists c :: 0 <= c < VOCSIZE && c != (pattern[1] - pattern[0]) % VOCSIZE && !Bit(kk, c)
  {
    var m := |pattern|;
    Pow2Monotone(1, m);
    var base := Pow2(m) - 2;
    BorrowedKept(pattern, base, kk, VOCSIZE);
    TEntryBits(LTable(pattern, base), kk, Pow2(m) - 1, VOCSIZE, 0);
    LowMaskBit(m, 0);
  }

  // ---------------------------------------------------------------------
  // One input

  /** A boundary mask whose only clear bit is class c selects l[c] alone. */
  /** With every bit but c set, kk passes the test for bit b exactly when b is c. */
  lemma OtherBitTest(w: nat, kk: nat, c: nat, b: nat)
    requires c < w && b < w && kk + Pow2(c) + 1 == Pow2(w)
    ensures OrEquals(kk, Pow2(w) - 1 - Pow2(b)) <==> c == b
  {
    AllButBit(w, c, b);
    ClearTest(kk, w, b);
  }

  lemma {:induction false} TEntryOne(l: seq<nat>, kk: nat, c: nat, mask: nat, n: nat)
    requires n <= |l| && n <= VOCSIZE && c < VOCSIZE && kk + Pow2(c) == ONES
    ensures TEntry(l, kk, mask, n) == if c < n then And(mask, l[c]) else mask
  {
    if n > 0 {
      TEntryOne(l, kk, c, mask, n - 1);
      assert OrEquals(kk, ONES - Pow2(n - 1)) <==> c == n - 1 by {
        Pow2Twelve();
        OtherBitTest(VOCSIZE, kk, c, n - 1);
      }
    }
  }

  /** The pattern C-E-G: intervals of class 4 and 3. */
  const Triad: seq<int> := [60, 64, 67]

  /** The chords C, E, G of one note each: the pattern played once. */
  const Arpeggio: seq<seq<int>> := [[60], [64], [67]]

  /** Boundary masks that allow exactly class 4, then exactly class 3. */
  const Masks: seq<nat> := [4079, 4087]

  /** Between one-note chords the mask has exactly the bit of their
      interval class clear. */
  lemma OneNoteMask(a: int, b: int)
    ensures Pow2((b - a) % VOCSIZE) <= 2048
    ensures BoundaryMask([a], [b]) == ONES - Pow2((b - a) % VOCSIZE)
  {
    var k0 := (b - a) % VOCSIZE;
    ClearMaskBits(k0, 0);
    forall k: nat ensures Bit(BoundaryMask([a], [b]), k) == Bit(ONES - Pow2(k0), k) {
      BoundaryMaskBits([a], [b], k);
      ClearMaskBits(k0, k);
      if k == k0 {
        assert IntervalOccurs([a], [b], k);
      }
    }
    BitExt(BoundaryMask([a], [b]), ONES - Pow2(k0));
  }

  /** Masks is what monopoly_preprocess computes for the arpeggio. */
  lemma ArpeggioMasks()
    ensures Masks == [BoundaryMask(Arpeggio[0], Arpeggio[1]), BoundaryMask(Arpeggio[1], Arpeggio[2])]
  {
    assert Arpeggio[0] == [60] && Arpeggio[1] == [64] && Arpeggio[2] == [67];
    assert BoundaryMask([60], [64]) == 4079 by {
      OneNoteMask(60, 64);
      assert (64 - 60) % VOCSIZE == 4 && Pow2(4) == 16;
    }
    assert BoundaryMask([64], [67]) == 4087 by {
      OneNoteMask(64, 67);
      assert (67 - 64) % VOCSIZE == 3 && Pow2(3) == 8;
    }
  }

  lemma TriadTable(base: nat)
    requires base == 6 || base == 7
    ensures Pow2(2) == 4
    ensures LTable(Triad, base)[4] == base - 1 && LTable(Triad, base)[3] == base - 2
  {
    assert Classes(Triad, 2) == [4, 3];
    assert LTable(Triad, base)[4] == Cleared(base, [4, 3], 4, 2);
    assert LTable(Triad, base)[3] == Cleared(base, [4, 3], 3, 2);
  }

  lemma TriadWord(base: nat, q: nat, c: nat)
    requires base == 6 || base == 7
    requires (q == 0 && c == 4) || (q == 1 && c == 3)
    ensures Pow2(2) == 4 && Pow2(3) == 8
    ensures MonoWord(Masks, Triad, base, q) == And(7, LTable(Triad, base)[c])
  {
    assert Pow2(4) == 16 && Pow2(3) == 8;
    TEntryOne(LTable(Triad, base), Masks[q], c, Pow2(|Triad|) - 1, |LTable(Triad, base)|);
  }

  /** The words as written: l[4] = 5 and l[3] = 4 after the borrow. */
  lemma BorrowedWords()
    ensures Pow2(2) == 4 && Pow2(3) == 8
    ensures MonoWords(Masks, Triad, 6, 2) == [5, 4]
  {
    TriadTable(6);
    TriadWord(6, 0, 4);
    TriadWord(6, 1, 3);
    WordFacts();
  }

  /** The words from the all-ones start: l[4] = 6 and l[3] = 5. */
  lemma FullWords()
    ensures Pow2(2) == 4 && Pow2(3) == 8
    ensures MonoWords(Masks, Triad, 7, 2) == [6, 5]
  {
    TriadTable(7);
    TriadWord(7, 0, 4);
    TriadWord(7, 1, 3);
    WordFacts();
  }

  /** Two words fed from e0. */
  lemma RunPair(e0: nat, ws: seq<nat>, mask: nat)
    requires |ws| == 2
    ensures Run(e0, ws[..1], mask) == Step(e0, ws[0], mask)
    ensures Run(e0, ws, mask) == Step(Step(e0, ws[0], mask), ws[1], mask)
  {
    RunSnoc(e0, ws, mask);
    RunSnoc(e0, ws[..1], mask);
    assert ws[..1][..0] == [];
  }

  /** The two report decisions of a two-boundary input. */
  lemma HitsPair(preprocessed: seq<nat>, pattern: seq<int>, base: nat)
    requires |pattern| >= 2 && base + 1 >= Pow2(|pattern| - 1) && |preprocessed| == 2
    ensures var ws := MonoWords(preprocessed, pattern, base, 2);
            MonoHits(preprocessed, pattern, base, 2)
            == [MonoReportAfter(base, ws[..1], |pattern|), MonoReportAfter(base, ws, |pattern|)]
  {
    FirstHit(preprocessed, pattern, base);
    MonoHitsAt(preprocessed, pattern, base, 2, 1);
  }

  lemma FirstHit(preprocessed: seq<nat>, pattern: seq<int>, base: nat)
    requires |pattern| >= 2 && base + 1 >= Pow2(|pattern| - 1) && |preprocessed| == 2
    ensures MonoHits(preprocessed, pattern, base, 2)[0]
            == MonoReportAfter(base, MonoWords(preprocessed, pattern, base, 2)[..1], |pattern|)
  {
    assert MonoWords(preprocessed, pattern, base, 1) == MonoWords(preprocessed, pattern, base, 2)[..1];
    MonoHitsAt(preprocessed, pattern, base, 2, 0);
  }

  /** The decisions on two words, from the state after each. */
  lemma HitsOfPair(base: nat, w0: nat, w1: nat, m: nat, mask: nat, e1: nat, e2: nat)
    requires m >= 2 && mask == Pow2(m) - 1
    requires e1 == Step(base, w0, mask) && e2 == Step(e1, w1, mask)
    ensures MonoReportAfter(base, [w0, w1][..1], m) == MonoHit(e1, m)
    ensures MonoReportAfter(base, [w0, w1], m) == MonoHit(e2, m)
  {
    RunPair(base, [w0, w1], mask);
    assert Run(base, [w0, w1][..1], Pow2(m) - 1) == e1;
    assert Run(base, [w0, w1], Pow2(m) - 1) == e2;
  }

  /** The bit arithmetic of both runs: the table entries under the mask,
      the steps of the state, and the report test of a 3-note pattern. */
  lemma WordFacts()
    ensures And(7, 6) == 6 && And(7, 5) == 5 && And(7, 4) == 4
    ensures Step(7, 6, 7) == 6 && Step(6, 5, 7) == 5 && Step(5, 4, 7) == 6
    ensures MonoHit(5, 3) && !MonoHit(6, 3)
  {
    SecondBitTest(5, 3, VOCSIZE);
    SecondBitTest(6, 3, VOCSIZE);
  }

  lemma BorrowedHits()
    ensures Pow2(2) == 4 && Pow2(3) == 8
    ensures MonoHits(Masks, Triad, 6, 2) == [true, false]
  {
    BorrowedWords();
    WordFacts();
    HitsPair(Masks, Triad, 6);
    HitsOfPair(6, 5, 4, 3, 7, 5, 6);
  }

  lemma FullHits()
    ensures Pow2(2) == 4 && Pow2(3) == 8
    ensures MonoHits(Masks, Triad, 7, 2) == [false, true]
  {
    FullWords();
    WordFacts();
    HitsPair(Masks, Triad, 7);
    HitsOfPair(7, 6, 5, 3, 7, 6, 5);
  }

  /** The reports of two boundaries, in order. */
  lemma ReportsOfTwo(chords: seq<seq<int>>, pattern: seq<int>, h0: bool, h1: bool)
    requires |pattern| >= 1 && 2 < |chords|
    ensures Reports(chords, pattern, [h0, h1])
            == (if h0 then [CheckAt(chords, 2 - |pattern|, pattern)] else [])
               + (if h1 then [CheckAt(chords, 3 - |pattern|, pattern)] else [])
  {
    assert [h0, h1][..1] == [h0] && [h0][..0] == [];
    assert Reports(chords, pattern, [h0])
           == Reports(chords, pattern, []) + if h0 then [CheckAt(chords, 2 - |pattern|, pattern)] else [];
    assert Reports(chords, pattern, [h0, h1])
           == Reports(chords, pattern, [h0]) + if h1 then [CheckAt(chords, 3 - |pattern|, pattern)] else [];
  }

  /** The arpeggio holds C-E-G once, from chord 0. */
  lemma ArpeggioMatch()
    ensures MatchCheckSpec(Arpeggio, 0, Triad) == [Match(0, 2, [60, 64, 67])]
  {
    assert Arpeggio[0] == [60] && Arpeggio[1] == [64] && Arpeggio[2] == [67];
    assert PathFrom(Arpeggio, 0, Triad, 60) by {
      assert Running(Triad, 60, 1) == 64 && Running(Triad, 60, 2) == 67;
      assert Detect([64], 64) == Some(64);
      assert Detect([67], 67) == Some(67);
    }
    assert PathNotes(Arpeggio, 0, Triad, 60, 3) == [60, 64, 67];
    assert MatchCheckUpTo(Arpeggio, 0, Triad, 1)
           == MatchCheckUpTo(Arpeggio, 0, Triad, 0) + [Match(0, 2, PathNotes(Arpeggio, 0, Triad, 60, 3))];
  }

  /** The chords G, C, E hold no C-E-G from chord 0. */
  lemma WrappedNoMatch()
    ensures MatchCheckSpec([[67], [60], [64]], 0, Triad) == []
  {
    var wrapped := [[67], [60], [64]];
    assert !PathFrom(wrapped, 0, Triad, 67) by {
      assert Running(Triad, 67, 1) == 71 && wrapped[1] == [60];
      assert Detect([60], 71).None? by {
        assert 60 % VOCSIZE != 71 % VOCSIZE && [60][1..] == [];
      }
    }
    assert wrapped[0][0] == 67 && |wrapped[0]| == 1;
    assert MatchCheckUpTo(wrapped, 0, Triad, 1) == MatchCheckUpTo(wrapped, 0, Triad, 0) + [];
  }

  /** As written, monopoly on the arpeggio reports after the first
      boundary, for a window that would start before the first chord, and
      not after the second, which closes the one window that holds C-E-G.
      Ruby's call `matchcheck(chords, -1, pattern)` there reads the chords
      G, C, E, which hold no occurrence either. */
  lemma BorrowMissesWindow()
    ensures Masks == [BoundaryMask(Arpeggio[0], Arpeggio[1]), BoundaryMask(Arpeggio[1], Arpeggio[2])]
    ensures Pow2(|Triad|) - 2 == 6
    ensures MonopolySpec(Arpeggio, Masks, Triad, Pow2(|Triad|) - 2) == [None]
    ensures MatchCheckSpec([Arpeggio[2], Arpeggio[0], Arpeggio[1]], 0, Triad) == []
  {
    ArpeggioMasks();
    BorrowedHits();
    ReportsOfTwo(Arpeggio, Triad, true, false);
    WrappedNoMatch();
  }

  /** From the all-ones start, monopoly on the arpeggio reports the
      occurrence at chord 0, as directcheck2 does. */
  lemma FullFindsWindow()
    ensures Full(|Triad|) == 7
    ensures MonopolySpec(Arpeggio, Masks, Triad, Full(|Triad|)) == [Some([Match(0, 2, [60, 64, 67])])]
    ensures DirectCheck2Spec(Arpeggio, Masks, Triad) == [Match(0, 2, [60, 64, 67])]
  {
    FullReports();
    FlattenOne([Match(0, 2, [60, 64, 67])]);
    MonopolyAsDirectCheck2(Arpeggio, Masks, Triad);
  }

  lemma FullReports()
    ensures Full(|Triad|) == 7
    ensures MonopolySpec(Arpeggio, Masks, Triad, Full(|Triad|)) == [Some([Match(0, 2, [60, 64, 67])])]
  {
    FullHits();
    ReportsOfTwo(Arpeggio, Triad, false, true);
    ArpeggioMatch();
  }

  lemma FlattenOne(found: seq<Match>)
    ensures Flatten([Some(found)]) == found
  {
    FlattenSnoc([], [Some(found)]);
    assert [] + [Some(found)] == [Some(found)];
  }
}
