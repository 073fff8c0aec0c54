// The preprocessing phase of MonoPoly (BPMIR.monopoly_preprocess): one
// 12-bit boundary mask per pair of adjacent chords.
module Preprocess {
  import opened Bits

  /** Bit b of `ONES - 2 ** b` is clear and every other bit below 12 is set. */
  lemma ClearMaskBits(b: nat, k: nat)
    requires b < VOCSIZE
    ensures Pow2(b) <= 2048
    ensures Bit(ONES - Pow2(b), k) == (k < VOCSIZE && k != b)
  {
    Pow2Monotone(b, 11);
    Pow2Twelve();
    LowMaskBit(12, b);
    SubPow2Bit(ONES, b, k);
    LowMaskBit(12, k);
  }

  lemma Pow2Twelve()
    ensures Pow2(11) == 2048 && Pow2(12) == 4096
  {
    assert Pow2(4) == 16;
    assert Pow2(8) == 256;
  }

  /** The source's test `s | tmp != tmp` with `tmp = ONES - 2 ** b`, on a
      12-bit s, asks whether bit b of s is set; subtracting `2 ** b` then
      clears exactly that bit. */
  lemma ClearStep(m: nat, b: nat)
    requires b < VOCSIZE && m <= ONES
    ensures Pow2(b) <= 2048
    ensures (Or(m, ONES - Pow2(b)) != ONES - Pow2(b)) == Bit(m, b)
    ensures Bit(m, b) ==> m >= Pow2(b) && m - Pow2(b) <= ONES
    ensures Bit(m, b) ==> forall k: nat :: Bit(m - Pow2(b), k) == (Bit(m, k) && k != b)
  {
    ClearMaskBits(b, 0);
    Pow2Twelve();
    var tmp := ONES - Pow2(b);
    forall k: nat ensures Bit(tmp, k) == (k < VOCSIZE && k != b) { ClearMaskBits(b, k); }
    forall k: nat | k >= VOCSIZE ensures !Bit(m, k) { HighBitsClear(m, 12, k); }
    if Bit(m, b) {
      SubPow2Bit(m, b, 0);
      OrBit(m, tmp, b);
      forall k: nat ensures Bit(m - Pow2(b), k) == (Bit(m, k) && k != b) { SubPow2Bit(m, b, k); }
    } else {
      forall k: nat ensures Bit(Or(m, tmp), k) == Bit(tmp, k) { OrBit(m, tmp, k); }
      BitExt(Or(m, tmp), tmp);
    }
  }

  /** Some note of `right` lies `k` semitones (mod 12) above `base`. */
  predicate Reached(base: int, right: seq<int>, k: nat)
  {
    exists i :: 0 <= i < |right| && (right[i] - base) % VOCSIZE == k
  }

  /** The mask after the source's first inner loop (lib/bpmir.rb:34-39):
      starting from ONES, bit `(note - base) mod 12` is cleared for each
      note of the right-hand chord, taken in order. */
  function ReachMask(base: int, right: seq<int>): (r: nat)
    ensures r <= ONES
    decreases |right|
  {
    if right == [] then ONES
    else
      var m := ReachMask(base, right[..|right| - 1]);
      var b := (right[|right| - 1] - base) % VOCSIZE;
      ClearBound(m, b);
      var tmp := ONES - Pow2(b);
      if Or(m, tmp) != tmp then m - Pow2(b) else m
  }

  /** What ReachMask needs of ClearStep to stay within 12 bits. */
  lemma ClearBound(m: nat, b: nat)
    requires b < VOCSIZE && m <= ONES
    ensures Pow2(b) <= 2048
    ensures Or(m, ONES - Pow2(b)) != ONES - Pow2(b) ==> m >= Pow2(b) && m - Pow2(b) <= ONES
  {
    ClearStep(m, b);
  }

  lemma ReachMaskStep(base: int, right: seq<int>, k: nat)
    requires k < |right|
    ensures Pow2((right[k] - base) % VOCSIZE) <= 2048
    ensures var b := (right[k] - base) % VOCSIZE;
            var m := ReachMask(base, right[..k]);
            var tmp := ONES - Pow2(b);
            ReachMask(base, right[..k + 1]) == if Or(m, tmp) != tmp then m - Pow2(b) else m
  {
    ClearMaskBits((right[k] - base) % VOCSIZE, 0);
    assert right[..k + 1][..k] == right[..k];
  }

  /** The set bits of the reach mask are exactly the intervals below 12 that
      no note of `right` reaches from `base`. */
  lemma {:induction false} ReachMaskBits(base: int, right: seq<int>, k: nat)
    ensures Bit(ReachMask(base, right), k) <==> k < VOCSIZE && !Reached(base, right, k)
    decreases |right|
  {
    if right == [] {
      Pow2Twelve();
      LowMaskBit(12, k);
    } else {
      var front := right[..|right| - 1];
      var m := ReachMask(base, front);
      var b := (right[|right| - 1] - base) % VOCSIZE;
      ReachedSnoc(base, right, k);
      ReachMaskBits(base, front, k);
      ClearStep(m, b);
      if Bit(m, b) {
        assert ReachMask(base, right) == m - Pow2(b);
      } else {
        assert ReachMask(base, right) == m;
        ReachMaskBits(base, front, b);
        if k == b {
          ReachedSnoc(base, right, b);
        }
      }
    }
  }

  /** The intervals reached by a chord are those of its front and of its
      last note. */
  lemma ReachedSnoc(base: int, right: seq<int>, k: nat)
    requires right != []
    ensures Reached(base, right, k)
            <==> Reached(base, right[..|right| - 1], k) || (right[|right| - 1] - base) % VOCSIZE == k
  {
    var front := right[..|right| - 1];
    if Reached(base, front, k) {
      var i :| 0 <= i < |front| && (front[i] - base) % VOCSIZE == k;
      assert right[i] == front[i];
    }
    if Reached(base, right, k) && (right[|right| - 1] - base) % VOCSIZE != k {
      var i :| 0 <= i < |right| && (right[i] - base) % VOCSIZE == k;
      assert i < |front| && front[i] == right[i];
    }
  }


  /** The AND of the rotations of `reach` by the intervals from `base` to
      `left[1]`, ..., `left[n-1]` (lib/bpmir.rb:42-43). */
  function Shifts(reach: nat, base: int, left: seq<int>, n: nat): nat
    requires n <= 1 || n <= |left|
  {
    if n <= 1 then ONES
    else And(Shifts(reach, base, left, n - 1), Rcs(reach, VOCSIZE, (left[n - 1] - base) % VOCSIZE))
  }

  lemma ShiftsStep(reach: nat, base: int, left: seq<int>, i: nat)
    requires 1 <= i < |left|
    ensures Shifts(reach, base, left, i + 1)
            == And(Shifts(reach, base, left, i), Rcs(reach, VOCSIZE, (left[i] - base) % VOCSIZE))
  {
  }

  /** The base note of a chord: its first element.  An empty chord has none;
      the value is then never used, because the chord after it is empty too. */
  function Base(chord: seq<int>): int
  {
    if chord == [] then 0 else chord[0]
  }

  /** The boundary mask between chord `left` and the chord `right` after it. */
  function BoundaryMask(left: seq<int>, right: seq<int>): nat
  {
    var reach := ReachMask(Base(left), right);
    And(reach, Shifts(reach, Base(left), left, |left|))
  }

  /** Some note of `left` and some note of `right` are k semitones apart in
      pitch class, counting upwards from the left note. */
  predicate IntervalOccurs(left: seq<int>, right: seq<int>, k: nat)
  {
    exists a, c :: 0 <= a < |left| && 0 <= c < |right| && (right[c] - left[a]) % VOCSIZE == k
  }

  /** The source never reads the base note of an empty chord: it would
      fail on it if the next chord had a note. */
  predicate Preprocessable(chords: seq<seq<int>>)
  {
    forall j :: 0 <= j < |chords| - 1 && chords[j] == [] ==> chords[j + 1] == []
  }

  method MonopolyPreprocess(chords: seq<seq<int>>) returns (s: seq<nat>)
    requires Preprocessable(chords)
    ensures |s| == if chords == [] then 0 else |chords| - 1
    ensures forall j :: 0 <= j < |s| ==> s[j] == BoundaryMask(chords[j], chords[j + 1])
  {
    s := [];
    var j := 0;
    while j < |chords| - 1
      invariant 0 <= j == |s|
      invariant j == 0 || j < |chords|
      invariant forall j' :: 0 <= j' < j ==> s[j'] == BoundaryMask(chords[j'], chords[j' + 1])
    {
      var sj := PreprocessBoundary(chords[j], chords[j + 1]);
      s := s + [sj];
      j := j + 1;
    }
  }

  /** One iteration of the outer loop of monopoly_preprocess: the mask
      `s[j]` for chord `left = chords[j]` and `right = chords[j + 1]`. */
  method PreprocessBoundary(left: seq<int>, right: seq<int>) returns (sj: nat)
    ensures sj == BoundaryMask(left, right)
  {
    var base := Base(left);
    sj := ReachLoop(base, right);
    var shifts := ShiftsLoop(sj, base, left);
    sj := And(sj, shifts);
  }

  /** lib/bpmir.rb:34-39: clear the bit of each note's interval from base. */
  method ReachLoop(base: int, right: seq<int>) returns (sj: nat)
    ensures sj == ReachMask(base, right)
  {
    sj := ONES;
    var k := 0;
    while k < |right|
      invariant 0 <= k <= |right|
      invariant sj == ReachMask(base, right[..k])
    {
      var b := (right[k] - base) % VOCSIZE;
      ReachMaskStep(base, right, k);
      var pow := Pow2(b);
      var tmp := ONES - pow;
      if Or(sj, tmp) != tmp {
        sj := sj - pow;
      }
      k := k + 1;
    }
    assert right[..|right|] == right;
  }

  /** lib/bpmir.rb:42-43: AND the rotations of the mask by the intervals
      from base to the other notes of the left chord. */
  method ShiftsLoop(sj: nat, base: int, left: seq<int>) returns (shifts: nat)
    ensures shifts == Shifts(sj, base, left, |left|)
  {
    shifts := ONES;
    var i := 1;
    while i < |left|
      invariant 1 <= i <= if left == [] then 1 else |left|
      invariant shifts == Shifts(sj, base, left, i)
    {
      ShiftsStep(sj, base, left, i);
      shifts := And(shifts, Rcs(sj, VOCSIZE, (left[i] - base) % VOCSIZE));
      i := i + 1;
    }
  }


  // ---------------------------------------------------------------------
  // What the boundary mask means

  lemma ModShift(c: int, base: int, l: int, k: nat)
    requires k < VOCSIZE
    ensures ((c - base) % VOCSIZE == (k + (l - base) % VOCSIZE) % VOCSIZE) == ((c - l) % VOCSIZE == k)
  {
  }

  /** Interval k above `l` is reached exactly when interval `k + (l - base)`
      (mod 12) above `base` is. */
  lemma ReachedShift(base: int, right: seq<int>, l: int, k: nat)
    requires k < VOCSIZE
    ensures Reached(base, right, (k + (l - base) % VOCSIZE) % VOCSIZE) <==> Reached(l, right, k)
  {
    var k' := (k + (l - base) % VOCSIZE) % VOCSIZE;
    if Reached(l, right, k) {
      var i :| 0 <= i < |right| && (right[i] - l) % VOCSIZE == k;
      ModShift(right[i], base, l, k);
    }
    if Reached(base, right, k') {
      var i :| 0 <= i < |right| && (right[i] - base) % VOCSIZE == k';
      ModShift(right[i], base, l, k);
    }
  }

  /** Bit k of a rotation term of `Shifts` is set exactly when no note of
      `right` lies k semitones (mod 12) above `l`. */
  lemma RotationBit(base: int, right: seq<int>, l: int, k: nat)
    ensures Bit(Rcs(ReachMask(base, right), VOCSIZE, (l - base) % VOCSIZE), k)
            == (k < VOCSIZE && !Reached(l, right, k))
  {
    var a := (l - base) % VOCSIZE;
    var reach := ReachMask(base, right);
    RcsBit(reach, VOCSIZE, a, k);
    if k < VOCSIZE {
      var k' := (k + a) % VOCSIZE;
      ReachMaskBits(base, right, k');
      ReachedShift(base, right, l, k);
    }
  }

  /** No note of `left[1..n]` has a note of `right` k semitones (mod 12)
      above it. */
  predicate NoneReached(left: seq<int>, right: seq<int>, k: nat, n: nat)
    requires n <= 1 || n <= |left|
  {
    n <= 1 || (NoneReached(left, right, k, n - 1) && !Reached(left[n - 1], right, k))
  }

  lemma {:induction false} NoneReachedAll(left: seq<int>, right: seq<int>, k: nat, n: nat)
    requires n <= 1 || n <= |left|
    ensures NoneReached(left, right, k, n) <==> forall a :: 1 <= a < n ==> !Reached(left[a], right, k)
  {
    if n > 1 {
      NoneReachedAll(left, right, k, n - 1);
    }
  }

  lemma {:induction false} ShiftsBit(base: int, left: seq<int>, right: seq<int>, n: nat, k: nat)
    requires 1 <= n <= |left|
    ensures Bit(Shifts(ReachMask(base, right), base, left, n), k)
            == (k < VOCSIZE && NoneReached(left, right, k, n))
  {
    if n == 1 {
      Pow2Twelve();
      LowMaskBit(12, k);
    } else {
      ShiftsBit(base, left, right, n - 1, k);
      ShiftBitStep(base, left, right, n, k);
    }
  }

  lemma ShiftBitStep(base: int, left: seq<int>, right: seq<int>, n: nat, k: nat)
    requires 2 <= n <= |left|
    ensures Bit(Shifts(ReachMask(base, right), base, left, n), k)
            == (Bit(Shifts(ReachMask(base, right), base, left, n - 1), k) && k < VOCSIZE && !Reached(left[n - 1], right, k))
  {
    var reach := ReachMask(base, right);
    var rot := Rcs(reach, VOCSIZE, (left[n - 1] - base) % VOCSIZE);
    AndBit(Shifts(reach, base, left, n - 1), rot, k);
    RotationBit(base, right, left[n - 1], k);
  }

  /** Bit k of the boundary mask is clear exactly when some note of the left
      chord and some note of the right chord are k semitones apart (mod 12):
      the set bits are the transposition intervals that cannot occur at this
      boundary. */
  lemma BoundaryMaskBits(left: seq<int>, right: seq<int>, k: nat)
    requires left == [] ==> right == []
    ensures Bit(BoundaryMask(left, right), k) == (k < VOCSIZE && !IntervalOccurs(left, right, k))
  {
    var base := Base(left);
    var reach := ReachMask(base, right);
    AndBit(reach, Shifts(reach, base, left, |left|), k);
    ReachMaskBits(base, right, k);
    if left == [] {
      Pow2Twelve();
      LowMaskBit(12, k);
    } else {
      ShiftsBit(base, left, right, |left|, k);
      NoneReachedAll(left, right, k, |left|);
      if IntervalOccurs(left, right, k) {
        var a, c :| 0 <= a < |left| && 0 <= c < |right| && (right[c] - left[a]) % VOCSIZE == k;
        assert Reached(left[a], right, k);
      }
      forall a | 0 <= a < |left| && Reached(left[a], right, k) ensures IntervalOccurs(left, right, k) {
        var c :| 0 <= c < |right| && (right[c] - left[a]) % VOCSIZE == k;
      }
    }
  }

  /** A boundary mask is a 12-bit word; it is below ONES whenever the right
      chord has a note, so it indexes the MonoPoly transition table. */
  lemma BoundaryMaskRange(left: seq<int>, right: seq<int>)
    requires left == [] ==> right == []
    ensures BoundaryMask(left, right) <= ONES
    ensures right != [] ==> BoundaryMask(left, right) < ONES
  {
    var s := BoundaryMask(left, right);
    forall b: nat | Bit(s, b) ensures b < VOCSIZE { BoundaryMaskBits(left, right, b); }
    BoundFromBits(s, VOCSIZE);
    Pow2Twelve();
    if right != [] {
      var k := (right[0] - left[0]) % VOCSIZE;
      assert IntervalOccurs(left, right, k);
      BoundaryMaskBits(left, right, k);
      Pow2Twelve();
      LowMaskBit(12, k);
    }
  }

  /** The boundary mask keeps no bit that the reach mask of the base note
      has not got: the rotations only ever clear bits. */
  lemma BoundaryWithinReach(left: seq<int>, right: seq<int>, k: nat)
    requires Bit(BoundaryMask(left, right), k)
    ensures Bit(ReachMask(Base(left), right), k)
  {
    var reach := ReachMask(Base(left), right);
    AndBit(reach, Shifts(reach, Base(left), left, |left|), k);
  }

  /** With a one-note left chord, bit k of the mask is clear exactly when
      some note of the right chord is k semitones (mod 12) above it. */
  lemma SingleNoteBoundary(a: int, right: seq<int>, k: nat)
    requires k < VOCSIZE
    ensures !Bit(BoundaryMask([a], right), k) <==> exists c :: 0 <= c < |right| && (right[c] - a) % VOCSIZE == k
  {
    BoundaryMaskBits([a], right, k);
    if exists c :: 0 <= c < |right| && (right[c] - a) % VOCSIZE == k {
      var c :| 0 <= c < |right| && (right[c] - a) % VOCSIZE == k;
      assert IntervalOccurs([a], right, k);
    }
  }
}
