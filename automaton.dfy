// The shift-and automaton shared by BPMIR's filters (monopoly, mp, mp2,
// shiftorand): the step `e = ((e << 1) | t) & mask`, tables made by
// subtracting one power of two per pattern position, and the report test
// `e | em == em`.
module Automaton {
  import opened Bits

  /** `2 ** w - 1`: all w bits set. */
  function Full(w: nat): nat
  {
    Pow2(w) - 1
  }

  /** ONES, the 12-bit mask of all interval classes, is `2 ** 12 - 1`. */
  lemma OnesFull()
    ensures Full(VOCSIZE) == ONES
  {
    assert Pow2(4) == 16;
    assert Pow2(8) == 256;
  }

  /** One step of the automaton: `((e << 1) | t) & mask`. */
  function Step(e: nat, t: nat, mask: nat): nat
  {
    And(Or(2 * e, t), mask)
  }

  lemma StepBit(e: nat, t: nat, mask: nat, i: nat)
    ensures Bit(Step(e, t, mask), i) == (Bit(mask, i) && (Bit(t, i) || (i >= 1 && Bit(e, i - 1))))
  {
    AndBit(Or(2 * e, t), mask, i);
    OrBit(2 * e, t, i);
    DoubleBit(e, i);
  }

  /** The state after the words ts have been fed in order from e0. */
  function Run(e0: nat, ts: seq<nat>, mask: nat): nat
    decreases |ts|
  {
    if ts == [] then e0 else Step(Run(e0, ts[..|ts| - 1], mask), ts[|ts| - 1], mask)
  }

  /** The last word fed is the last step taken. */
  lemma RunSnoc(e0: nat, ts: seq<nat>, mask: nat)
    requires ts != []
    ensures Run(e0, ts, mask) == Step(Run(e0, ts[..|ts| - 1], mask), ts[|ts| - 1], mask)
  {
  }

  /** Feeding the words of ts one at a time. */
  lemma RunPrefix(e0: nat, ts: seq<nat>, j: nat, mask: nat)
    requires j < |ts|
    ensures Run(e0, ts[..j + 1], mask) == Step(Run(e0, ts[..j], mask), ts[j], mask)
  {
    assert ts[..j + 1][..j] == ts[..j];
  }

  /** Bit i of the state is clear exactly when every word fed at most i
      steps ago had the bit clear that has since shifted to i, and, when
      fewer than i + 1 words have been fed, so had e0. */
  predicate ClearTrail(e0: nat, ts: seq<nat>, i: nat)
  {
    (forall q :: 0 <= q < |ts| && |ts| - 1 - q <= i ==> !Bit(ts[q], i - (|ts| - 1 - q)))
    && (i >= |ts| ==> !Bit(e0, i - |ts|))
  }

  lemma {:induction false} RunClear(e0: nat, ts: seq<nat>, w: nat, i: nat)
    requires i < w
    ensures !Bit(Run(e0, ts, Pow2(w) - 1), i) <==> ClearTrail(e0, ts, i)
  {
    if ts != [] {
      var mask := Pow2(w) - 1;
      var n := |ts|;
      var ts' := ts[..n - 1];
      StepBit(Run(e0, ts', mask), ts[n - 1], mask, i);
      LowMaskBit(w, i);
      if i > 0 {
        RunClear(e0, ts', w, i - 1);
        TrailStep(e0, ts, i);
      }
    }
  }

  lemma TrailStep(e0: nat, ts: seq<nat>, i: nat)
    requires ts != [] && i > 0
    ensures ClearTrail(e0, ts, i) <==> !Bit(ts[|ts| - 1], i) && ClearTrail(e0, ts[..|ts| - 1], i - 1)
  {
    var ts' := ts[..|ts| - 1];
    assert forall q :: 0 <= q < |ts'| ==> ts'[q] == ts[q];
  }

  /** At least c words, and each of the last c words, q, has bit
      q - (|ts| - c) clear: the last c steps followed the diagonal. */
  predicate LastWordsClear(ts: seq<nat>, c: nat)
  {
    |ts| >= c && forall q :: |ts| - c <= q < |ts| ==> !Bit(ts[q], q - (|ts| - c))
  }

  lemma LastWordClear(ts: seq<nat>, c: nat, q: nat)
    requires LastWordsClear(ts, c) && |ts| - c <= q < |ts|
    ensures !Bit(ts[q], q - (|ts| - c))
  {
  }

  /** From the all-ones state of an m-bit automaton, bit c - 1 is clear
      exactly when the last c words cleared the diagonal to it. */
  lemma FullRunClear(ts: seq<nat>, m: nat, c: nat)
    requires 1 <= c <= m
    ensures !Bit(Run(Pow2(m) - 1, ts, Pow2(m) - 1), c - 1) <==> LastWordsClear(ts, c)
  {
    RunClear(Pow2(m) - 1, ts, m, c - 1);
    if |ts| < c {
      LowMaskBit(m, c - 1 - |ts|);
    }
  }

  /** The state stays inside the mask: `e & ~mask == 0`. */
  lemma {:induction false} RunBelow(e0: nat, ts: seq<nat>, w: nat)
    requires e0 < Pow2(w)
    ensures Run(e0, ts, Pow2(w) - 1) < Pow2(w)
  {
    if ts != [] {
      var r := Run(e0, ts, Pow2(w) - 1);
      forall b: nat | Bit(r, b) ensures b < w {
        StepBit(Run(e0, ts[..|ts| - 1], Pow2(w) - 1), ts[|ts| - 1], Pow2(w) - 1, b);
        LowMaskBit(w, b);
      }
      BoundFromBits(r, w);
    }
  }

  /** The w-bit word with only bit b clear. */
  lemma AllButBit(w: nat, b: nat, k: nat)
    requires b < w
    ensures Pow2(b) < Pow2(w)
    ensures Bit(Pow2(w) - 1 - Pow2(b), k) == (k < w && k != b)
  {
    LowMaskBit(w, b);
    LowMaskBit(w, k);
    SubPow2Bit(Pow2(w) - 1, b, k);
    Pow2Monotone(b + 1, w);
  }

  /** `x | em == em` with `em = 2 ** w - 1 - 2 ** b` tests bit b of a word
      of w bits. */
  lemma ClearTest(x: nat, w: nat, b: nat)
    requires x < Pow2(w) && b < w
    ensures Pow2(b) < Pow2(w)
    ensures OrEquals(x, Pow2(w) - 1 - Pow2(b)) <==> !Bit(x, b)
  {
    AllButBit(w, b, b);
    var em: nat := Pow2(w) - 1 - Pow2(b);
    OrEqualsBits(x, em);
    if !Bit(x, b) {
      forall k: nat | Bit(x, k) ensures Bit(em, k) {
        AllButBit(w, b, k);
        if k >= w { HighBitsClear(x, w, k); }
      }
    }
  }

  /** An automaton of c bits started full, read through the test word of w
      bits with only bit c - 1 clear: the test passes exactly when the last
      c words cleared the diagonal. */
  lemma FullTest(ts: seq<nat>, c: nat, w: nat)
    requires 1 <= c <= w
    ensures OrEquals(Run(Full(c), ts, Full(c)), Full(w) - Pow2(c - 1)) <==> LastWordsClear(ts, c)
  {
    var x := Run(Pow2(c) - 1, ts, Pow2(c) - 1);
    RunBelow(Pow2(c) - 1, ts, c);
    Pow2Monotone(c, w);
    ClearTest(x, w, c - 1);
    FullRunClear(ts, c, c);
  }

  /** `base - Σ 2 ** i` over the positions i < q with keys[i] == key: a
      table entry after the first q subtractions. */
  function Cleared(base: nat, keys: seq<int>, key: int, q: nat): (r: nat)
    requires q <= |keys| && base + 1 >= Pow2(q)
    ensures r <= base && base - r <= Pow2(q) - 1
  {
    if q == 0 then base
    else Cleared(base, keys, key, q - 1) - if keys[q - 1] == key then Pow2(q - 1) else 0
  }

  /** A table whose entries are each `Cleared(base, keys, x, i - 1)`: taking
      `2 ** (i - 1)` off the entry of keys[i - 1] takes every entry to i. */
  lemma ClearedStep(t: seq<nat>, keys: seq<int>, base: nat, i: nat, k: int)
    requires 1 <= i <= |keys| && base + 1 >= Pow2(i) && keys[i - 1] == k && 0 <= k < |t|
    requires forall x :: 0 <= x < |t| ==> t[x] == Cleared(base, keys, x, i - 1)
    ensures t[k] >= Pow2(i - 1)
    ensures forall x :: 0 <= x < |t| ==> t[k := t[k] - Pow2(i - 1)][x] == Cleared(base, keys, x, i)
  {
    assert t[k] - Pow2(i - 1) == Cleared(base, keys, k, i);
  }

  /** From a base of w one-bits no subtraction borrows: bit i of the entry
      is cleared exactly for the positions carrying the key. */
  lemma {:induction false} ClearedBits(w: nat, keys: seq<int>, key: int, q: nat, i: nat)
    requires q <= |keys| <= w
    ensures Pow2(q) <= Pow2(w)
    ensures Bit(Cleared(Pow2(w) - 1, keys, key, q), i) == (i < w && !(i < q && keys[i] == key))
  {
    Pow2Monotone(q, w);
    if q == 0 {
      LowMaskBit(w, i);
    } else {
      Pow2Monotone(q - 1, w);
      var prev := Cleared(Pow2(w) - 1, keys, key, q - 1);
      ClearedBits(w, keys, key, q - 1, i);
      if keys[q - 1] == key {
        ClearedBits(w, keys, key, q - 1, q - 1);
        assert Bit(prev, q - 1);
        SubPow2Bit(prev, q - 1, i);
        assert Cleared(Pow2(w) - 1, keys, key, q) == prev - Pow2(q - 1);
      } else {
        assert Cleared(Pow2(w) - 1, keys, key, q) == prev;
      }
    }
  }

  predicate InTable(t: seq<nat>, keys: seq<int>)
  {
    forall k :: 0 <= k < |keys| ==> 0 <= keys[k] < |t|
  }

  /** Entry k of table t; a key outside the table (which the filters never
      look up) reads as 0. */
  function Entry(t: seq<nat>, k: int): nat
  {
    if 0 <= k < |t| then t[k] else 0
  }

  /** `keys.each { |k| tmp &= t[k] }` from x: the filters AND the table
      entries of a chord's notes or intervals into one word. */
  function AndAt(x: nat, t: seq<nat>, keys: seq<int>): nat
  {
    if keys == [] then x else And(AndAt(x, t, keys[..|keys| - 1]), Entry(t, keys[|keys| - 1]))
  }

  lemma {:induction false} AndAtBits(x: nat, t: seq<nat>, keys: seq<int>, i: nat)
    requires InTable(t, keys)
    ensures Bit(AndAt(x, t, keys), i) == (Bit(x, i) && forall k :: 0 <= k < |keys| ==> Bit(t[keys[k]], i))
  {
    if keys != [] {
      var init := keys[..|keys| - 1];
      AndAtBits(x, t, init, i);
      AndBit(AndAt(x, t, init), Entry(t, keys[|keys| - 1]), i);
      assert forall k :: 0 <= k < |init| ==> init[k] == keys[k];
    }
  }
}
