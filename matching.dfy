// Note-level verification and the direct matchers of BPMIR: matchcheck,
// directcheck, directcheck2 and get_pattern_intervals.
module Matching {
  import opened Bits
  import opened Records
  import opened Preprocess

  /** `chord.detect { |y| y % 12 == x % 12 }`: the first note of the chord
      with the pitch class of x, or nothing. */
  function Detect(chord: seq<int>, x: int): (r: Option<int>)
    ensures r.None? <==> forall i :: 0 <= i < |chord| ==> chord[i] % VOCSIZE != x % VOCSIZE
    ensures r.Some? ==> exists i :: 0 <= i < |chord| && chord[i] == r.value && r.value % VOCSIZE == x % VOCSIZE
                                    && forall i' :: 0 <= i' < i ==> chord[i'] % VOCSIZE != x % VOCSIZE
  {
    if chord == [] then None
    else if chord[0] % VOCSIZE == x % VOCSIZE then Some(chord[0])
    else
      var r := Detect(chord[1..], x);
      assert forall i :: 1 <= i < |chord| ==> chord[i] == chord[1..][i - 1];
      r
  }

  // ---------------------------------------------------------------------
  // matchcheck

  /** The chords a candidate window starting at j spans lie inside `chords`. */
  predicate InWindow(chords: seq<seq<int>>, j: int, pattern: seq<int>)
  {
    0 <= j && |pattern| >= 1 && j + |pattern| - 1 < |chords|
  }

  /** The running pitch of matchcheck after k steps, `curr + p[k] - p[0]`. */
  function Running(pattern: seq<int>, curr: int, k: nat): int
    requires k < |pattern|
  {
    curr + pattern[k] - pattern[0]
  }

  /** From `curr`, every later chord of the window has a note of the
      pitch class the pattern's intervals lead to. */
  predicate PathFrom(chords: seq<seq<int>>, j: int, pattern: seq<int>, curr: int)
    requires InWindow(chords, j, pattern)
  {
    forall k :: 1 <= k < |pattern| ==> Detect(chords[j + k], Running(pattern, curr, k)).Some?
  }

  /** The k-th matched note of the path from `curr`: curr itself, then the
      note `detect` picks in chord j + k. */
  function PathNote(chords: seq<seq<int>>, j: int, pattern: seq<int>, curr: int, k: nat): int
    requires InWindow(chords, j, pattern) && k < |pattern|
  {
    if k == 0 then curr
    else match Detect(chords[j + k], Running(pattern, curr, k))
      case Some(y) => y
      case None => curr
  }

  /** The first n matched notes of the path from `curr`. */
  function PathNotes(chords: seq<seq<int>>, j: int, pattern: seq<int>, curr: int, n: nat): (r: seq<int>)
    requires InWindow(chords, j, pattern) && n <= |pattern|
    ensures |r| == n
  {
    if n == 0 then [] else PathNotes(chords, j, pattern, curr, n - 1) + [PathNote(chords, j, pattern, curr, n - 1)]
  }

  lemma {:induction false} PathNotesAt(chords: seq<seq<int>>, j: int, pattern: seq<int>, curr: int, n: nat, k: nat)
    requires InWindow(chords, j, pattern) && k < n <= |pattern|
    ensures PathNotes(chords, j, pattern, curr, n)[k] == PathNote(chords, j, pattern, curr, k)
  {
    if k < n - 1 {
      PathNotesAt(chords, j, pattern, curr, n - 1, k);
    }
  }

  /** The results matchcheck collects from the first n notes of chord j. */
  function MatchCheckUpTo(chords: seq<seq<int>>, j: int, pattern: seq<int>, n: nat): seq<Match>
    requires InWindow(chords, j, pattern) && n <= |chords[j]|
  {
    if n == 0 then []
    else
      var curr := chords[j][n - 1];
      MatchCheckUpTo(chords, j, pattern, n - 1)
        + if PathFrom(chords, j, pattern, curr)
          then [Match(j, j + |pattern| - 1, PathNotes(chords, j, pattern, curr, |pattern|))]
          else []
  }

  function MatchCheckSpec(chords: seq<seq<int>>, j: int, pattern: seq<int>): seq<Match>
    requires InWindow(chords, j, pattern)
  {
    MatchCheckUpTo(chords, j, pattern, |chords[j]|)
  }

  /** `matchcheck(chords, s, pattern)` as the filters call it, for a start
      that may lie before the first chord.  Ruby would then read chords
      from the end of the list; the model reports no verified result. */
  function CheckAt(chords: seq<seq<int>>, s: int, pattern: seq<int>): (r: Option<seq<Match>>)
    requires |pattern| >= 1 && s + |pattern| - 1 < |chords|
    ensures r.Some? <==> s >= 0
  {
    if s < 0 then None else Some(MatchCheckSpec(chords, s, pattern))
  }

  /** A filter's call `matchcheck(chords, s, pattern)` for a window ending
      at a last chord of the list. */
  method CheckWindow(chords: seq<seq<int>>, s: int, pattern: seq<int>) returns (r: Option<seq<Match>>)
    requires |pattern| >= 1 && s + |pattern| - 1 < |chords|
    ensures r == CheckAt(chords, s, pattern)
  {
    if s < 0 {
      r := None;
    } else {
      var found := MatchCheck(chords, s, pattern);
      r := Some(found);
    }
  }

  method MatchCheck(chords: seq<seq<int>>, j: int, pattern: seq<int>) returns (results: seq<Match>)
    requires InWindow(chords, j, pattern)
    ensures results == MatchCheckSpec(chords, j, pattern)
  {
    results := [];
    var matched: seq<int> := [];
    for n := 0 to |chords[j]|
      invariant results == MatchCheckUpTo(chords, j, pattern, n)
      invariant matched == []
    {
      var curr := chords[j][n];
      var i := 0;
      var found := true;
      var c := curr;
      matched := matched + [c];
      while found && i < |pattern| - 1
        invariant 0 <= i <= |pattern| - 1
        invariant found ==> c == Running(pattern, curr, i)
        invariant found ==> matched == PathNotes(chords, j, pattern, curr, i + 1)
        invariant found ==> forall k :: 1 <= k <= i ==> Detect(chords[j + k], Running(pattern, curr, k)).Some?
        invariant !found ==> matched == [] && !PathFrom(chords, j, pattern, curr)
      {
        var x := c + pattern[i + 1] - pattern[i];
        assert x == Running(pattern, curr, i + 1);
        var y := Detect(chords[j + (i + 1)], x);
        if y.Some? {
          c := x;
          matched := matched + [y.value];
          assert matched == PathNotes(chords, j, pattern, curr, i + 2);
        } else {
          found := false;
          matched := [];
        }
        i := i + 1;
      }
      if found {
        assert PathFrom(chords, j, pattern, curr);
        results := results + [Match(j, j + |pattern| - 1, matched)];
        matched := [];
      }
    }
  }

  /** Some note of each chord of the window has the pitch class that `curr`
      moved by the pattern's intervals reaches: the candidate's notes are an
      octave-equivalent, transposed occurrence of the pattern. */
  predicate OctaveOccurrence(chords: seq<seq<int>>, j: int, pattern: seq<int>, notes: seq<int>)
    requires InWindow(chords, j, pattern)
  {
    |notes| == |pattern|
    && (forall k :: 0 <= k < |pattern| ==> notes[k] in chords[j + k])
    && (forall k :: 0 <= k < |pattern| ==> notes[k] % VOCSIZE == (notes[0] + pattern[k] - pattern[0]) % VOCSIZE)
  }

  lemma PathNotesOccur(chords: seq<seq<int>>, j: int, pattern: seq<int>, curr: int)
    requires InWindow(chords, j, pattern) && curr in chords[j] && PathFrom(chords, j, pattern, curr)
    ensures OctaveOccurrence(chords, j, pattern, PathNotes(chords, j, pattern, curr, |pattern|))
  {
    var notes := PathNotes(chords, j, pattern, curr, |pattern|);
    forall k | 0 <= k < |notes| ensures notes[k] == PathNote(chords, j, pattern, curr, k) {
      PathNotesAt(chords, j, pattern, curr, |pattern|, k);
    }
    PathOccurrence(chords, j, pattern, curr, notes);
  }

  lemma PathOccurrence(chords: seq<seq<int>>, j: int, pattern: seq<int>, curr: int, notes: seq<int>)
    requires InWindow(chords, j, pattern) && curr in chords[j] && PathFrom(chords, j, pattern, curr)
    requires |notes| == |pattern| && forall k :: 0 <= k < |notes| ==> notes[k] == PathNote(chords, j, pattern, curr, k)
    ensures OctaveOccurrence(chords, j, pattern, notes)
  {
    forall k | 0 <= k < |pattern|
      ensures notes[k] in chords[j + k]
      ensures notes[k] % VOCSIZE == (notes[0] + pattern[k] - pattern[0]) % VOCSIZE
    {
      PathNoteIn(chords, j, pattern, curr, k);
    }
  }

  /** Each note of a complete path lies in its chord and has the pitch
      class the pattern's interval leads to. */
  lemma PathNoteIn(chords: seq<seq<int>>, j: int, pattern: seq<int>, curr: int, k: nat)
    requires InWindow(chords, j, pattern) && curr in chords[j] && PathFrom(chords, j, pattern, curr)
    requires k < |pattern|
    ensures PathNote(chords, j, pattern, curr, k) in chords[j + k]
    ensures PathNote(chords, j, pattern, curr, k) % VOCSIZE == Running(pattern, curr, k) % VOCSIZE
  {
    if k > 0 {
      assert Detect(chords[j + k], Running(pattern, curr, k)).Some?;
    }
  }

  /** matchcheck reports a match from anchor note `curr` of chord j exactly
      when some octave-equivalent transposed occurrence starts at curr. */
  lemma PathFromIffOccurrence(chords: seq<seq<int>>, j: int, pattern: seq<int>, curr: int)
    requires InWindow(chords, j, pattern) && curr in chords[j]
    ensures PathFrom(chords, j, pattern, curr)
            <==> exists notes :: OctaveOccurrence(chords, j, pattern, notes) && notes[0] == curr
  {
    if PathFrom(chords, j, pattern, curr) {
      PathNotesOccur(chords, j, pattern, curr);
      PathNotesAt(chords, j, pattern, curr, |pattern|, 0);
    }
    if exists notes :: OctaveOccurrence(chords, j, pattern, notes) && notes[0] == curr {
      var notes :| OctaveOccurrence(chords, j, pattern, notes) && notes[0] == curr;
      forall k | 1 <= k < |pattern| ensures Detect(chords[j + k], Running(pattern, curr, k)).Some? {
        var i := IndexOf(chords[j + k], notes[k]);
        assert chords[j + k][i] % VOCSIZE == Running(pattern, curr, k) % VOCSIZE;
      }
    }
  }

  lemma {:induction false} MatchCheckUpToMembers(chords: seq<seq<int>>, j: int, pattern: seq<int>, n: nat)
    requires InWindow(chords, j, pattern) && n <= |chords[j]|
    ensures |MatchCheckUpTo(chords, j, pattern, n)| <= n
    ensures forall r :: r in MatchCheckUpTo(chords, j, pattern, n) <==>
              exists a :: 0 <= a < n && PathFrom(chords, j, pattern, chords[j][a])
                          && r == Match(j, j + |pattern| - 1, PathNotes(chords, j, pattern, chords[j][a], |pattern|))
  {
    if n > 0 {
      MatchCheckUpToMembers(chords, j, pattern, n - 1);
      var prev := MatchCheckUpTo(chords, j, pattern, n - 1);
      var curr := chords[j][n - 1];
      var extra := if PathFrom(chords, j, pattern, curr)
                   then [Match(j, j + |pattern| - 1, PathNotes(chords, j, pattern, curr, |pattern|))]
                   else [];
      assert MatchCheckUpTo(chords, j, pattern, n) == prev + extra;
      forall r | r in extra
        ensures exists a :: 0 <= a < n && PathFrom(chords, j, pattern, chords[j][a])
                            && r == Match(j, j + |pattern| - 1, PathNotes(chords, j, pattern, chords[j][a], |pattern|))
      {
        assert chords[j][n - 1] == curr;
      }
    }
  }

  /** matchcheck gives at most one result per note of chord j; each result
      is the window j .. j+m-1 with an octave-equivalent transposed
      occurrence anchored at a note of chord j, and every note of chord j
      that anchors such an occurrence yields one. */
  lemma MatchCheckCorrect(chords: seq<seq<int>>, j: int, pattern: seq<int>)
    requires InWindow(chords, j, pattern)
    ensures |MatchCheckSpec(chords, j, pattern)| <= |chords[j]|
    ensures forall r :: r in MatchCheckSpec(chords, j, pattern) ==>
              r.start == j && r.end == j + |pattern| - 1
              && OctaveOccurrence(chords, j, pattern, r.notes) && r.notes[0] in chords[j]
    ensures forall a :: 0 <= a < |chords[j]| ==>
              ((exists notes :: OctaveOccurrence(chords, j, pattern, notes) && notes[0] == chords[j][a])
               <==> exists r :: r in MatchCheckSpec(chords, j, pattern) && r.notes[0] == chords[j][a])
  {
    MatchCheckUpToMembers(chords, j, pattern, |chords[j]|);
    var res := MatchCheckSpec(chords, j, pattern);
    forall r | r in res
      ensures r.start == j && r.end == j + |pattern| - 1
      ensures OctaveOccurrence(chords, j, pattern, r.notes) && r.notes[0] in chords[j]
    {
      var a :| 0 <= a < |chords[j]| && PathFrom(chords, j, pattern, chords[j][a])
               && r == Match(j, j + |pattern| - 1, PathNotes(chords, j, pattern, chords[j][a], |pattern|));
      PathNotesOccur(chords, j, pattern, chords[j][a]);
    }
    forall a | 0 <= a < |chords[j]|
      ensures (exists notes :: OctaveOccurrence(chords, j, pattern, notes) && notes[0] == chords[j][a])
              <==> exists r :: r in res && r.notes[0] == chords[j][a]
    {
      var curr := chords[j][a];
      PathFromIffOccurrence(chords, j, pattern, curr);
      if PathFrom(chords, j, pattern, curr) {
        var r := Match(j, j + |pattern| - 1, PathNotes(chords, j, pattern, curr, |pattern|));
        PathNotesAt(chords, j, pattern, curr, |pattern|, 0);
        assert r in res && r.notes[0] == curr;
      }
      if exists r :: r in res && r.notes[0] == curr {
        var r :| r in res && r.notes[0] == curr;
        var a' :| 0 <= a' < |chords[j]| && PathFrom(chords, j, pattern, chords[j][a'])
                  && r == Match(j, j + |pattern| - 1, PathNotes(chords, j, pattern, chords[j][a'], |pattern|));
        PathNotesOccur(chords, j, pattern, chords[j][a']);
      }
    }
  }

  // ---------------------------------------------------------------------
  // get_pattern_intervals

  method PatternIntervals(pattern: seq<int>) returns (r: Option<seq<int>>)
    ensures r.None? <==> |pattern| < 2
    ensures r.Some? ==> |r.value| == |pattern| - 1
                        && forall k :: 0 <= k < |r.value| ==> r.value[k] == pattern[k + 1] - pattern[k]
  {
    if |pattern| < 2 {
      return None;
    }
    var intervals: seq<int> := [];
    for i := 1 to |pattern|
      invariant |intervals| == i - 1
      invariant forall k :: 0 <= k < i - 1 ==> intervals[k] == pattern[k + 1] - pattern[k]
    {
      intervals := intervals + [pattern[i] - pattern[i - 1]];
    }
    r := Some(intervals);
  }

  function Sum(s: seq<int>): int
  {
    if s == [] then 0 else Sum(s[..|s| - 1]) + s[|s| - 1]
  }

  /** Consecutive differences telescope: the first pitch plus the first k
      intervals is the k-th pitch. */
  lemma {:induction false} IntervalsTelescope(pattern: seq<int>, intervals: seq<int>, k: nat)
    requires |intervals| == |pattern| - 1
    requires forall i :: 0 <= i < |intervals| ==> intervals[i] == pattern[i + 1] - pattern[i]
    requires k < |pattern|
    ensures pattern[0] + Sum(intervals[..k]) == pattern[k]
  {
    if k > 0 {
      IntervalsTelescope(pattern, intervals, k - 1);
      assert intervals[..k][..k - 1] == intervals[..k - 1];
    }
  }

  // ---------------------------------------------------------------------
  // directcheck

  /** The notes directcheck reports for a match starting with `prev` in
      chord j - 1 and `curr` in chord j: the two, then `curr` moved by the
      literal intervals of the pattern after the first. */
  function DirectNotes(pattern: seq<int>, prev: int, curr: int): seq<int>
    requires |pattern| >= 2
  {
    seq(|pattern|, k requires 0 <= k < |pattern| => if k == 0 then prev else curr + pattern[k] - pattern[1])
  }

  /** The pitch directcheck's walk from `curr` reaches after the i-th
      literal interval: `curr + p[1] + ... + p[i]`. */
  function DirectRunning(pattern: seq<int>, curr: int, i: nat): int
    requires i + 1 < |pattern| && |pattern| >= 2
  {
    curr + pattern[i + 1] - pattern[1]
  }

  /** The test directcheck applies to the pair (prev, curr): the first
      interval agrees modulo 12, and each later chord has a note of the pitch
      class the next literal interval leads to. */
  predicate DirectPath(chords: seq<seq<int>>, j: int, pattern: seq<int>, prev: int, curr: int)
    requires |pattern| >= 2 && 1 <= j && j + |pattern| - 2 < |chords|
  {
    (pattern[1] - pattern[0]) % VOCSIZE == (curr - prev) % VOCSIZE
    && forall i :: 1 <= i < |pattern| - 1 ==> Detect(chords[j + i], DirectRunning(pattern, curr, i)).Some?
  }

  predicate DirectRange(chords: seq<seq<int>>, j: int, pattern: seq<int>)
  {
    |pattern| >= 2 && 1 <= j && j + |pattern| - 2 < |chords|
  }

  /** Results for `curr` against the first n notes of chord j - 1. */
  function DirectPrevs(chords: seq<seq<int>>, j: int, pattern: seq<int>, curr: int, n: nat): seq<Match>
    requires DirectRange(chords, j, pattern) && n <= |chords[j - 1]|
  {
    if n == 0 then []
    else
      var prev := chords[j - 1][n - 1];
      DirectPrevs(chords, j, pattern, curr, n - 1)
        + if DirectPath(chords, j, pattern, prev, curr)
          then [Match(j - 1, j + |pattern| - 2, DirectNotes(pattern, prev, curr))]
          else []
  }

  /** Results for the first n notes of chord j. */
  function DirectCurrs(chords: seq<seq<int>>, j: int, pattern: seq<int>, n: nat): seq<Match>
    requires DirectRange(chords, j, pattern) && n <= |chords[j]|
  {
    if n == 0 then []
    else DirectCurrs(chords, j, pattern, n - 1) + DirectPrevs(chords, j, pattern, chords[j][n - 1], |chords[j - 1]|)
  }

  /** Results for the chords j = 1 .. n - 1. */
  function DirectUpTo(chords: seq<seq<int>>, pattern: seq<int>, n: nat): seq<Match>
    requires |pattern| >= 2 && (n <= 1 || n <= |chords| - |pattern| + 2)
  {
    if n <= 1 then []
    else DirectUpTo(chords, pattern, n - 1) + DirectCurrs(chords, n - 1, pattern, |chords[n - 1]|)
  }

  function DirectCheckSpec(chords: seq<seq<int>>, pattern: seq<int>): seq<Match>
    requires |pattern| >= 2
  {
    if |chords| - |pattern| + 2 <= 1 then [] else DirectUpTo(chords, pattern, |chords| - |pattern| + 2)
  }

  /** Ruby's directcheck; a pattern of fewer than two pitches makes
      get_pattern_intervals return nil, on which the source fails. */
  method DirectCheck(chords: seq<seq<int>>, pattern: seq<int>) returns (results: seq<Match>)
    requires |pattern| >= 2
    ensures results == DirectCheckSpec(chords, pattern)
  {
    var pi := PatternIntervals(pattern);
    var p := pi.value;
    results := [];
    var j := 1;
    while j <= |chords| - |p|
      invariant 1 <= j
      invariant j <= |chords| - |p| + 1 || j == 1
      invariant results == DirectUpTo(chords, pattern, j)
    {
      var rj := DirectCheckChord(chords, j, pattern, p);
      results := results + rj;
      j := j + 1;
    }
  }

  /** The body of directcheck's outer loop for chord j. */
  method DirectCheckChord(chords: seq<seq<int>>, j: int, pattern: seq<int>, p: seq<int>) returns (results: seq<Match>)
    requires DirectRange(chords, j, pattern)
    requires |p| == |pattern| - 1 && forall k :: 0 <= k < |p| ==> p[k] == pattern[k + 1] - pattern[k]
    ensures results == DirectCurrs(chords, j, pattern, |chords[j]|)
  {
    results := [];
    for cn := 0 to |chords[j]|
      invariant results == DirectCurrs(chords, j, pattern, cn)
    {
      var curr := chords[j][cn];
      var intervals: seq<int> := [];
      for pn := 0 to |chords[j - 1]|
        invariant |intervals| == pn
        invariant forall k :: 0 <= k < pn ==> intervals[k] == curr - chords[j - 1][k]
      {
        intervals := intervals + [curr - chords[j - 1][pn]];
      }
      var before := results;
      for ii := 0 to |intervals|
        invariant results == before + DirectPrevs(chords, j, pattern, curr, ii)
      {
        var interval := intervals[ii];
        if p[0] % VOCSIZE == interval % VOCSIZE {
          var walk := DirectWalk(chords, j, pattern, p, chords[j - 1][ii], curr);
          if walk.Some? {
            results := results + [Match(j - 1, j + |pattern| - 2, walk.value)];
          }
        }
      }
    }
  }

  /** The `while found` walk of directcheck for the pair (prev, curr): the
      notes it collects when every step finds its pitch class. */
  method DirectWalk(chords: seq<seq<int>>, j: int, pattern: seq<int>, p: seq<int>, prev: int, curr: int)
    returns (walk: Option<seq<int>>)
    requires DirectRange(chords, j, pattern)
    requires |p| == |pattern| - 1 && forall k :: 0 <= k < |p| ==> p[k] == pattern[k + 1] - pattern[k]
    requires (pattern[1] - pattern[0]) % VOCSIZE == (curr - prev) % VOCSIZE
    ensures walk.Some? <==> DirectPath(chords, j, pattern, prev, curr)
    ensures walk.Some? ==> walk.value == DirectNotes(pattern, prev, curr)
  {
    var i := 1;
    var jj := j + 1;
    var found := true;
    var c := curr;
    var matched := [prev, c];
    while found && i < |p|
      invariant 1 <= i <= |p|
      invariant found ==> jj == j + i
      invariant found ==> c == curr + pattern[i] - pattern[1]
      invariant found ==> matched == DirectNotes(pattern, prev, curr)[..i + 1]
      invariant found ==> forall k :: 1 <= k < i ==> Detect(chords[j + k], DirectRunning(pattern, curr, k)).Some?
      invariant !found ==> matched == [] && !DirectPath(chords, j, pattern, prev, curr)
    {
      var x := c + p[i];
      assert found ==> x == DirectRunning(pattern, curr, i);
      if Detect(chords[jj], x).Some? {
        c := x;
        jj := jj + 1;
        matched := matched + [c];
      } else {
        found := false;
        matched := [];
      }
      i := i + 1;
    }
    if found {
      assert matched == DirectNotes(pattern, prev, curr);
      walk := Some(matched);
    } else {
      walk := None;
    }
  }

  /** The notes form a transposition-invariant occurrence of the pattern
      starting at chord s: the first two are notes of chords s and s + 1
      whose interval agrees with the pattern's first interval modulo 12,
      every later note follows the pattern's literal intervals, and each
      later chord has a note of that note's pitch class. */
  predicate TransposedOccurrence(chords: seq<seq<int>>, s: int, pattern: seq<int>, notes: seq<int>)
    requires |pattern| >= 2
  {
    0 <= s && s + |pattern| - 1 < |chords| && |notes| == |pattern|
    && notes[0] in chords[s] && notes[1] in chords[s + 1]
    && (notes[1] - notes[0]) % VOCSIZE == (pattern[1] - pattern[0]) % VOCSIZE
    && (forall k :: 1 <= k < |pattern| ==> notes[k] == notes[1] + pattern[k] - pattern[1])
    && (forall k :: 2 <= k < |pattern| ==> HasClass(chords[s + k], notes[k]))
  }

  /** Some note of the chord has the pitch class of x. */
  predicate HasClass(chord: seq<int>, x: int)
  {
    exists y :: y in chord && y % VOCSIZE == x % VOCSIZE
  }

  lemma DirectPathIff(chords: seq<seq<int>>, j: int, pattern: seq<int>, prev: int, curr: int)
    requires DirectRange(chords, j, pattern) && prev in chords[j - 1] && curr in chords[j]
    ensures DirectPath(chords, j, pattern, prev, curr)
            <==> TransposedOccurrence(chords, j - 1, pattern, DirectNotes(pattern, prev, curr))
  {
    var notes := DirectNotes(pattern, prev, curr);
    if DirectPath(chords, j, pattern, prev, curr) {
      forall k | 2 <= k < |pattern|
        ensures HasClass(chords[j - 1 + k], notes[k])
      {
        assert Detect(chords[j + (k - 1)], DirectRunning(pattern, curr, k - 1)).Some?;
        var y := Detect(chords[j + (k - 1)], DirectRunning(pattern, curr, k - 1)).value;
        assert y in chords[j - 1 + k];
      }
    }
    if TransposedOccurrence(chords, j - 1, pattern, notes) {
      forall i | 1 <= i < |pattern| - 1
        ensures Detect(chords[j + i], DirectRunning(pattern, curr, i)).Some?
      {
        assert HasClass(chords[j - 1 + (i + 1)], notes[i + 1]);
        var y :| y in chords[j - 1 + (i + 1)] && y % VOCSIZE == notes[i + 1] % VOCSIZE;
        var a := IndexOf(chords[j + i], y);
      }
    }
  }

  /** Note a of chord j - 1 and curr start a reported directcheck path. */
  predicate PrevHit(chords: seq<seq<int>>, j: int, pattern: seq<int>, a: int, curr: int, r: Match)
    requires DirectRange(chords, j, pattern)
  {
    0 <= a < |chords[j - 1]| && DirectPath(chords, j, pattern, chords[j - 1][a], curr)
    && r == Match(j - 1, j + |pattern| - 2, DirectNotes(pattern, chords[j - 1][a], curr))
  }

  lemma {:induction false} DirectPrevsMembers(chords: seq<seq<int>>, j: int, pattern: seq<int>, curr: int, n: nat)
    requires DirectRange(chords, j, pattern) && n <= |chords[j - 1]|
    ensures forall r :: r in DirectPrevs(chords, j, pattern, curr, n) <==>
              exists a :: 0 <= a < n && PrevHit(chords, j, pattern, a, curr, r)
  {
    if n > 0 {
      DirectPrevsMembers(chords, j, pattern, curr, n - 1);
      var prev := chords[j - 1][n - 1];
      var r0 := Match(j - 1, j + |pattern| - 2, DirectNotes(pattern, prev, curr));
      forall r | r in DirectPrevs(chords, j, pattern, curr, n)
        ensures exists a :: 0 <= a < n && PrevHit(chords, j, pattern, a, curr, r)
      {
        if r !in DirectPrevs(chords, j, pattern, curr, n - 1) {
          assert PrevHit(chords, j, pattern, n - 1, curr, r);
        }
      }
      forall r | exists a :: 0 <= a < n && PrevHit(chords, j, pattern, a, curr, r)
        ensures r in DirectPrevs(chords, j, pattern, curr, n)
      {
        var a :| 0 <= a < n && PrevHit(chords, j, pattern, a, curr, r);
        if a == n - 1 {
          assert r == r0;
        }
      }
    }
  }

  /** A reported pair: prev is note a of chord j - 1, curr note c of chord j. */
  predicate DirectHit(chords: seq<seq<int>>, j: int, pattern: seq<int>, a: int, c: int, r: Match)
    requires DirectRange(chords, j, pattern)
  {
    0 <= a < |chords[j - 1]| && 0 <= c < |chords[j]|
    && DirectPath(chords, j, pattern, chords[j - 1][a], chords[j][c])
    && r == Match(j - 1, j + |pattern| - 2, DirectNotes(pattern, chords[j - 1][a], chords[j][c]))
  }

  lemma {:induction false} DirectCurrsMembers(chords: seq<seq<int>>, j: int, pattern: seq<int>, n: nat)
    requires DirectRange(chords, j, pattern) && n <= |chords[j]|
    ensures forall r :: r in DirectCurrs(chords, j, pattern, n) <==>
              exists a, c :: c < n && DirectHit(chords, j, pattern, a, c, r)
  {
    if n > 0 {
      DirectCurrsMembers(chords, j, pattern, n - 1);
      DirectPrevsMembers(chords, j, pattern, chords[j][n - 1], |chords[j - 1]|);
      forall r | r in DirectCurrs(chords, j, pattern, n)
        ensures exists a, c :: c < n && DirectHit(chords, j, pattern, a, c, r)
      {
        if r !in DirectCurrs(chords, j, pattern, n - 1) {
          var a :| 0 <= a < |chords[j - 1]| && PrevHit(chords, j, pattern, a, chords[j][n - 1], r);
          assert DirectHit(chords, j, pattern, a, n - 1, r);
        }
      }
      forall r | exists a, c :: c < n && DirectHit(chords, j, pattern, a, c, r)
        ensures r in DirectCurrs(chords, j, pattern, n)
      {
        var a, c :| c < n && DirectHit(chords, j, pattern, a, c, r);
        if c == n - 1 {
          assert PrevHit(chords, j, pattern, a, chords[j][n - 1], r);
          assert r in DirectPrevs(chords, j, pattern, chords[j][n - 1], |chords[j - 1]|);
        }
      }
    }
  }

  lemma {:induction false} DirectUpToMembers(chords: seq<seq<int>>, pattern: seq<int>, n: nat)
    requires |pattern| >= 2 && (n <= 1 || n <= |chords| - |pattern| + 2)
    ensures forall r :: r in DirectUpTo(chords, pattern, n) <==>
              exists j, a, c :: 1 <= j < n && DirectRange(chords, j, pattern) && DirectHit(chords, j, pattern, a, c, r)
  {
    if n > 1 {
      DirectUpToMembers(chords, pattern, n - 1);
      DirectCurrsMembers(chords, n - 1, pattern, |chords[n - 1]|);
    }
  }

  /** directcheck reports exactly the transposition-invariant occurrences of
      the pattern (in the sense of TransposedOccurrence) as windows of m
      chords; it reads no chord past the last. */
  lemma DirectCheckCorrect(chords: seq<seq<int>>, pattern: seq<int>)
    requires |pattern| >= 2
    ensures forall r: Match :: r in DirectCheckSpec(chords, pattern) <==>
              r.end == r.start + |pattern| - 1 && TransposedOccurrence(chords, r.start, pattern, r.notes)
  {
    var res := DirectCheckSpec(chords, pattern);
    var top := |chords| - |pattern| + 2;
    if top > 1 {
      DirectUpToMembers(chords, pattern, top);
    }
    forall r | r in res
      ensures r.end == r.start + |pattern| - 1 && TransposedOccurrence(chords, r.start, pattern, r.notes)
    {
      var j, a, c :| 1 <= j < top && DirectRange(chords, j, pattern) && DirectHit(chords, j, pattern, a, c, r);
      DirectPathIff(chords, j, pattern, chords[j - 1][a], chords[j][c]);
    }
    forall r: Match | r.end == r.start + |pattern| - 1 && TransposedOccurrence(chords, r.start, pattern, r.notes)
      ensures r in res
    {
      var j := r.start + 1;
      var a := IndexOf(chords[j - 1], r.notes[0]);
      var c := IndexOf(chords[j], r.notes[1]);
      assert r.notes == DirectNotes(pattern, r.notes[0], r.notes[1]);
      DirectPathIff(chords, j, pattern, r.notes[0], r.notes[1]);
      assert DirectHit(chords, j, pattern, a, c, r);
    }
  }

  // ---------------------------------------------------------------------
  // directcheck2

  /** directcheck2's test `preprocessed[j + i] | em == em` with
      `em = 2 ** 12 - 1 - 2 ** (interval % 12)`. */
  predicate MaskAllows(w: nat, interval: int)
  {
    Pow2Small(interval % VOCSIZE);
    OrEquals(w, ONES - Pow2(interval % VOCSIZE))
  }

  lemma Pow2Small(b: nat)
    requires b < VOCSIZE
    ensures Pow2(b) <= 2048
  {
    Pow2Monotone(b, 11);
    assert Pow2(4) == 16;
  }

  /** Every boundary of window j allows the pattern's interval at it. */
  predicate BoundaryOk(preprocessed: seq<nat>, j: int, pattern: seq<int>)
    requires 0 <= j && j + |pattern| - 1 <= |preprocessed|
  {
    forall i :: 0 <= i < |pattern| - 1 ==> MaskAllows(preprocessed[j + i], pattern[i + 1] - pattern[i])
  }

  lemma BoundaryAt(preprocessed: seq<nat>, j: int, pattern: seq<int>, i: nat)
    requires 0 <= j && j + |pattern| - 1 <= |preprocessed| && i < |pattern| - 1
    requires BoundaryOk(preprocessed, j, pattern)
    ensures MaskAllows(preprocessed[j + i], pattern[i + 1] - pattern[i])
  {
  }

  predicate Direct2Range(chords: seq<seq<int>>, preprocessed: seq<nat>, pattern: seq<int>)
  {
    |pattern| >= 1 && |preprocessed| < |chords|
  }

  /** Results of directcheck2 for the windows 0 .. n - 1. */
  function DirectCheck2UpTo(chords: seq<seq<int>>, preprocessed: seq<nat>, pattern: seq<int>, n: nat): seq<Match>
    requires Direct2Range(chords, preprocessed, pattern) && (n == 0 || n <= |preprocessed| - |pattern| + 2)
  {
    if n == 0 then []
    else
      DirectCheck2UpTo(chords, preprocessed, pattern, n - 1)
        + if BoundaryOk(preprocessed, n - 1, pattern) then MatchCheckSpec(chords, n - 1, pattern) else []
  }

  function DirectCheck2Spec(chords: seq<seq<int>>, preprocessed: seq<nat>, pattern: seq<int>): seq<Match>
    requires Direct2Range(chords, preprocessed, pattern)
  {
    if |preprocessed| - |pattern| + 2 <= 0 then []
    else DirectCheck2UpTo(chords, preprocessed, pattern, |preprocessed| - |pattern| + 2)
  }

  method DirectCheck2(chords: seq<seq<int>>, preprocessed: seq<nat>, pattern: seq<int>) returns (results: seq<Match>)
    requires Direct2Range(chords, preprocessed, pattern)
    ensures results == DirectCheck2Spec(chords, preprocessed, pattern)
  {
    results := [];
    var mask := ONES;
    var j := 0;
    while j <= |preprocessed| - |pattern| + 1
      invariant 0 <= j
      invariant j <= |preprocessed| - |pattern| + 2 || j == 0
      invariant results == DirectCheck2UpTo(chords, preprocessed, pattern, j)
    {
      var rj := DirectCheck2Window(chords, preprocessed, j, pattern, mask);
      results := results + rj;
      j := j + 1;
    }
  }

  /** The body of directcheck2's outer loop for window j. */
  method DirectCheck2Window(chords: seq<seq<int>>, preprocessed: seq<nat>, j: int, pattern: seq<int>, mask: nat)
    returns (results: seq<Match>)
    requires Direct2Range(chords, preprocessed, pattern) && 0 <= j <= |preprocessed| - |pattern| + 1
    requires mask == ONES
    ensures InWindow(chords, j, pattern)
    ensures results == if BoundaryOk(preprocessed, j, pattern) then MatchCheckSpec(chords, j, pattern) else []
  {
    results := [];
    for n := 0 to |chords[j]|
      invariant results == if BoundaryOk(preprocessed, j, pattern) then MatchCheckUpTo(chords, j, pattern, n) else []
    {
      var results0 := results;
      var walk := MaskedWalk(chords, preprocessed, j, pattern, chords[j][n], mask);
      if walk.Some? {
        results := results + [Match(j, j + |pattern| - 1, walk.value)];
      }
      WindowStep(chords, preprocessed, j, pattern, n, results0, walk, results);
    }
  }

  /** One note of directcheck2's window j: the walk from note n extends
      the window's results as matchcheck's would be, or not at all when a
      boundary of the window rejects its interval. */
  lemma WindowStep(chords: seq<seq<int>>, preprocessed: seq<nat>, j: int, pattern: seq<int>, n: nat,
                   results0: seq<Match>, walk: Option<seq<int>>, results: seq<Match>)
    requires Direct2Range(chords, preprocessed, pattern) && 0 <= j <= |preprocessed| - |pattern| + 1
    requires InWindow(chords, j, pattern) && n < |chords[j]|
    requires results0 == if BoundaryOk(preprocessed, j, pattern) then MatchCheckUpTo(chords, j, pattern, n) else []
    requires walk.Some? <==> BoundaryOk(preprocessed, j, pattern) && PathFrom(chords, j, pattern, chords[j][n])
    requires walk.Some? ==> walk.value == PathNotes(chords, j, pattern, chords[j][n], |pattern|)
    requires results == if walk.Some? then results0 + [Match(j, j + |pattern| - 1, walk.value)] else results0
    ensures results == if BoundaryOk(preprocessed, j, pattern) then MatchCheckUpTo(chords, j, pattern, n + 1) else []
  {
    if BoundaryOk(preprocessed, j, pattern) {
      MatchCheckSnoc(chords, j, pattern, n);
    }
  }

  lemma MatchCheckSnoc(chords: seq<seq<int>>, j: int, pattern: seq<int>, n: nat)
    requires InWindow(chords, j, pattern) && n < |chords[j]|
    ensures MatchCheckUpTo(chords, j, pattern, n + 1)
            == MatchCheckUpTo(chords, j, pattern, n)
               + if PathFrom(chords, j, pattern, chords[j][n])
                 then [Match(j, j + |pattern| - 1, PathNotes(chords, j, pattern, chords[j][n], |pattern|))]
                 else []
  {
  }

  /** directcheck2's inner loop from `curr`: each step needs both the
      boundary mask to allow the interval and the next chord to hold the
      pitch class. */
  method MaskedWalk(chords: seq<seq<int>>, preprocessed: seq<nat>, j: int, pattern: seq<int>, curr: int, mask: nat)
    returns (walk: Option<seq<int>>)
    requires Direct2Range(chords, preprocessed, pattern) && 0 <= j <= |preprocessed| - |pattern| + 1
    requires mask == ONES
    ensures InWindow(chords, j, pattern)
    ensures walk.Some? <==> BoundaryOk(preprocessed, j, pattern) && PathFrom(chords, j, pattern, curr)
    ensures walk.Some? ==> walk.value == PathNotes(chords, j, pattern, curr, |pattern|)
  {
    var i := 0;
    var found := true;
    var c := curr;
    var matched := [c];
    while found && i < |pattern| - 1
      invariant 0 <= i <= |pattern| - 1
      invariant found ==> c == Running(pattern, curr, i)
      invariant found ==> matched == PathNotes(chords, j, pattern, curr, i + 1)
      invariant found ==> forall k :: 1 <= k <= i ==> Detect(chords[j + k], Running(pattern, curr, k)).Some?
      invariant found ==> forall k :: 0 <= k < i ==> MaskAllows(preprocessed[j + k], pattern[k + 1] - pattern[k])
      invariant !found ==> !PathFrom(chords, j, pattern, curr) || !BoundaryOk(preprocessed, j, pattern)
    {
      var interval := pattern[i + 1] - pattern[i];
      var x := c + interval;
      Pow2Small(interval % VOCSIZE);
      var em := mask - Pow2(interval % VOCSIZE);
      var y := Detect(chords[j + i + 1], x);
      if OrEquals(preprocessed[j + i], em) && y.Some? {
        c := x;
        matched := matched + [y.value];
        assert matched == PathNotes(chords, j, pattern, curr, i + 2);
      } else {
        assert x == Running(pattern, curr, i + 1);
        if !OrEquals(preprocessed[j + i], em) {
          assert !MaskAllows(preprocessed[j + i], pattern[i + 1] - pattern[i]);
        }
        found := false;
      }
      i := i + 1;
    }
    if found {
      walk := Some(matched);
    } else {
      walk := None;
    }
  }

  /** For a mask of the preprocessing's range, directcheck2's test passes
      exactly when the interval's pitch-class bit is clear. */
  lemma MaskAllowsIff(w: nat, interval: int)
    requires w <= ONES
    ensures MaskAllows(w, interval) <==> !Bit(w, interval % VOCSIZE)
  {
    var b := interval % VOCSIZE;
    Pow2Small(b);
    OrEqualsBits(w, ONES - Pow2(b));
    ClearMaskBits(b, b);
    if !Bit(w, b) {
      forall k: nat | Bit(w, k) ensures IntBit(ONES - Pow2(b), k) {
        ClearMaskBits(b, k);
        if k >= VOCSIZE { HighBitsClear(w, 12, k); }
      }
    }
  }

  lemma ModDiff(a: int, b: int, x: int, y: int)
    requires a % VOCSIZE == x % VOCSIZE && b % VOCSIZE == y % VOCSIZE
    ensures (b - a) % VOCSIZE == (y - x) % VOCSIZE
  {
    var qa, qb, qx, qy := a / VOCSIZE, b / VOCSIZE, x / VOCSIZE, y / VOCSIZE;
    assert b - a == (y - x) + VOCSIZE * ((qb - qy) - (qa - qx));
  }

  /** A note x of one chord and a note y of the next that are the interval
      d apart modulo 12 pass the boundary mask between the two chords. */
  lemma StepPassesMask(left: seq<int>, right: seq<int>, x: int, y: int, d: int)
    requires left == [] ==> right == []
    requires x in left && y in right && (y - x) % VOCSIZE == d % VOCSIZE
    ensures MaskAllows(BoundaryMask(left, right), d)
  {
    var a := IndexOf(left, x);
    var c := IndexOf(right, y);
    assert IntervalOccurs(left, right, d % VOCSIZE);
    BoundaryMaskBits(left, right, d % VOCSIZE);
    BoundaryMaskRange(left, right);
    MaskAllowsIff(BoundaryMask(left, right), d);
  }

  /** The windows of all octave-equivalent occurrences pass the boundary
      masks the preprocessing computes: the filter never drops a match. */
  lemma OccurrencePassesMasks(chords: seq<seq<int>>, preprocessed: seq<nat>, j: int, pattern: seq<int>, notes: seq<int>)
    requires Preprocessable(chords) && |preprocessed| == |chords| - 1
    requires forall i :: 0 <= i < |preprocessed| ==> preprocessed[i] == BoundaryMask(chords[i], chords[i + 1])
    requires InWindow(chords, j, pattern) && OctaveOccurrence(chords, j, pattern, notes)
    ensures j + |pattern| - 1 <= |preprocessed| && BoundaryOk(preprocessed, j, pattern)
  {
    forall i | 0 <= i < |pattern| - 1
      ensures MaskAllows(preprocessed[j + i], pattern[i + 1] - pattern[i])
    {
      var x, y := notes[i], notes[i + 1];
      ModDiff(x, y, notes[0] + pattern[i] - pattern[0], notes[0] + pattern[i + 1] - pattern[0]);
      assert x in chords[j + i] && y in chords[j + i + 1];
      assert preprocessed[j + i] == BoundaryMask(chords[j + i], chords[j + i + 1]);
      StepPassesMask(chords[j + i], chords[j + i + 1], x, y, pattern[i + 1] - pattern[i]);
    }
  }

  /** Window j of directcheck2 on the preprocessing's masks is matchcheck
      on window j. */
  lemma WindowUnfiltered(chords: seq<seq<int>>, preprocessed: seq<nat>, j: int, pattern: seq<int>)
    requires Preprocessable(chords) && |preprocessed| == |chords| - 1
    requires forall i :: 0 <= i < |preprocessed| ==> preprocessed[i] == BoundaryMask(chords[i], chords[i + 1])
    requires InWindow(chords, j, pattern)
    ensures j + |pattern| - 1 <= |preprocessed|
    ensures BoundaryOk(preprocessed, j, pattern) || MatchCheckSpec(chords, j, pattern) == []
  {
    var res := MatchCheckSpec(chords, j, pattern);
    if res != [] {
      MatchCheckCorrect(chords, j, pattern);
      assert res[0] in res;
      OccurrencePassesMasks(chords, preprocessed, j, pattern, res[0].notes);
    }
  }

  /** matchcheck over the windows 0 .. n - 1. */
  function AllWindowsUpTo(chords: seq<seq<int>>, pattern: seq<int>, n: nat): seq<Match>
    requires |pattern| >= 1 && (n == 0 || n <= |chords| - |pattern| + 1)
  {
    if n == 0 then [] else AllWindowsUpTo(chords, pattern, n - 1) + MatchCheckSpec(chords, n - 1, pattern)
  }

  /** matchcheck at every start that leaves room for the whole pattern. */
  function AllWindows(chords: seq<seq<int>>, pattern: seq<int>): seq<Match>
    requires |pattern| >= 1
  {
    if |chords| - |pattern| + 1 <= 0 then [] else AllWindowsUpTo(chords, pattern, |chords| - |pattern| + 1)
  }

  lemma DirectCheck2UpToUnfiltered(chords: seq<seq<int>>, preprocessed: seq<nat>, pattern: seq<int>, n: nat)
    requires Preprocessable(chords) && |preprocessed| == |chords| - 1 && |pattern| >= 1
    requires forall i :: 0 <= i < |preprocessed| ==> preprocessed[i] == BoundaryMask(chords[i], chords[i + 1])
    requires n <= |chords| - |pattern| + 1
    ensures DirectCheck2UpTo(chords, preprocessed, pattern, n) == AllWindowsUpTo(chords, pattern, n)
  {
    forall j | 0 <= j < n
      ensures BoundaryOk(preprocessed, j, pattern) || MatchCheckSpec(chords, j, pattern) == []
    {
      WindowUnfiltered(chords, preprocessed, j, pattern);
    }
    RejectsOnlyEmpty(chords, preprocessed, pattern, n);
  }

  /** When every window the masks reject has no matchcheck result, the
      first n windows of directcheck2 give what matchcheck gives. */
  lemma {:induction false} RejectsOnlyEmpty(chords: seq<seq<int>>, preprocessed: seq<nat>, pattern: seq<int>, n: nat)
    requires Direct2Range(chords, preprocessed, pattern) && n <= |preprocessed| - |pattern| + 2
    requires n <= |chords| - |pattern| + 1
    requires forall j :: 0 <= j < n ==> BoundaryOk(preprocessed, j, pattern) || MatchCheckSpec(chords, j, pattern) == []
    ensures DirectCheck2UpTo(chords, preprocessed, pattern, n) == AllWindowsUpTo(chords, pattern, n)
  {
    if n > 0 {
      RejectsOnlyEmpty(chords, preprocessed, pattern, n - 1);
      Direct2Snoc(chords, preprocessed, pattern, n);
      var r := AllWindowsUpTo(chords, pattern, n - 1);
      var w := MatchCheckSpec(chords, n - 1, pattern);
      assert AllWindowsUpTo(chords, pattern, n) == r + w;
      if !BoundaryOk(preprocessed, n - 1, pattern) {
        assert w == [];
      }
    }
  }

  lemma Direct2Snoc(chords: seq<seq<int>>, preprocessed: seq<nat>, pattern: seq<int>, n: nat)
    requires Direct2Range(chords, preprocessed, pattern) && 1 <= n <= |preprocessed| - |pattern| + 2
    ensures DirectCheck2UpTo(chords, preprocessed, pattern, n)
            == DirectCheck2UpTo(chords, preprocessed, pattern, n - 1)
               + if BoundaryOk(preprocessed, n - 1, pattern) then MatchCheckSpec(chords, n - 1, pattern) else []
  {
  }

  /** With the masks of monopoly_preprocess, directcheck2 reports exactly
      what matchcheck reports at every window: its bit-parallel boundary
      test rejects no window that holds an octave-equivalent occurrence. */
  lemma DirectCheck2Unfiltered(chords: seq<seq<int>>, preprocessed: seq<nat>, pattern: seq<int>)
    requires Preprocessable(chords) && |chords| >= 1 && |preprocessed| == |chords| - 1 && |pattern| >= 1
    requires forall i :: 0 <= i < |preprocessed| ==> preprocessed[i] == BoundaryMask(chords[i], chords[i + 1])
    ensures DirectCheck2Spec(chords, preprocessed, pattern) == AllWindows(chords, pattern)
  {
    if |chords| - |pattern| + 1 > 0 {
      DirectCheck2UpToUnfiltered(chords, preprocessed, pattern, |chords| - |pattern| + 1);
    }
  }

  // ---------------------------------------------------------------------
  // What the filters report

  /** What the reports hits produce: a report after boundary j runs
      matchcheck on the window starting at j - m + 2, which does not exist
      when that start is negative. */
  function Reports(chords: seq<seq<int>>, pattern: seq<int>, hits: seq<bool>): seq<Option<seq<Match>>>
    requires |pattern| >= 1 && |hits| < |chords|
  {
    if hits == [] then []
    else
      Reports(chords, pattern, hits[..|hits| - 1])
        + if hits[|hits| - 1] then [CheckAt(chords, |hits| - |pattern| + 1, pattern)] else []
  }

  /** One more boundary: its report, if any, follows the earlier ones. */
  lemma ReportsPrefix(chords: seq<seq<int>>, pattern: seq<int>, hits: seq<bool>, j: nat)
    requires |pattern| >= 1 && j < |hits| < |chords|
    ensures Reports(chords, pattern, hits[..j + 1])
            == Reports(chords, pattern, hits[..j]) + if hits[j] then [CheckAt(chords, j - |pattern| + 2, pattern)] else []
  {
    assert hits[..j + 1][..j] == hits[..j];
  }

  /** `if hit then results << matchcheck(chords, q - m + 2, pattern)` after
      boundary q, whose decision is hits[q]. */
  method AddReport(chords: seq<seq<int>>, pattern: seq<int>, ghost hits: seq<bool>, q: nat,
                   results0: seq<Option<seq<Match>>>, hit: bool)
    returns (results: seq<Option<seq<Match>>>)
    requires |pattern| >= 1 && q < |hits| < |chords| && hits[q] == hit
    requires results0 == Reports(chords, pattern, hits[..q])
    ensures results == Reports(chords, pattern, hits[..q + 1])
  {
    results := results0;
    if hit {
      var found := CheckWindow(chords, q - |pattern| + 2, pattern);
      results := results + [found];
    }
    ReportsPrefix(chords, pattern, hits, q);
  }

  /** No report, no result. */
  lemma {:induction false} NoReports(chords: seq<seq<int>>, pattern: seq<int>, hits: seq<bool>)
    requires |pattern| >= 1 && |hits| < |chords|
    requires forall j :: 0 <= j < |hits| ==> !hits[j]
    ensures Reports(chords, pattern, hits) == []
  {
    if hits != [] {
      NoReports(chords, pattern, hits[..|hits| - 1]);
    }
  }

  /** The matches of the reported windows, in report order. */
  function Flatten(rs: seq<Option<seq<Match>>>): seq<Match>
  {
    if rs == [] then []
    else Flatten(rs[..|rs| - 1]) + if rs[|rs| - 1].Some? then rs[|rs| - 1].value else []
  }

  lemma FlattenSnoc(rs: seq<Option<seq<Match>>>, extra: seq<Option<seq<Match>>>)
    requires |extra| <= 1
    ensures Flatten(rs + extra) == Flatten(rs) + if extra != [] && extra[0].Some? then extra[0].value else []
  {
    if extra == [] {
      assert rs + extra == rs;
    } else {
      assert (rs + extra)[..|rs|] == rs;
      assert (rs + extra)[|rs + extra| - 1] == extra[0];
    }
  }

  /** When every boundary reports, result k is matchcheck on the window
      that boundary k closes, starting at k - m + 2. */
  lemma {:induction false} ReportsAll(chords: seq<seq<int>>, pattern: seq<int>, hits: seq<bool>)
    requires |pattern| >= 1 && |hits| < |chords|
    requires forall q :: 0 <= q < |hits| ==> hits[q]
    ensures |Reports(chords, pattern, hits)| == |hits|
    ensures forall k :: 0 <= k < |hits| ==>
              Reports(chords, pattern, hits)[k] == CheckAt(chords, k - |pattern| + 2, pattern)
  {
    if hits != [] {
      var front := hits[..|hits| - 1];
      ReportsAll(chords, pattern, front);
      assert Reports(chords, pattern, hits)
             == Reports(chords, pattern, front) + [CheckAt(chords, |hits| - |pattern| + 1, pattern)];
    }
  }

  /** matchcheck on each of the first n starts s whose flag ok[s] is set:
      a filter that lets through exactly the windows ok marks. */
  function PassedUpTo(chords: seq<seq<int>>, pattern: seq<int>, ok: seq<bool>, n: nat): seq<Match>
    requires |pattern| >= 1 && n <= |ok| && (n == 0 || n + |pattern| - 1 <= |chords|)
  {
    if n == 0 then []
    else PassedUpTo(chords, pattern, ok, n - 1) + if ok[n - 1] then MatchCheckSpec(chords, n - 1, pattern) else []
  }

  /** A boundary q reports exactly when it closes a window (q >= m - 2)
      whose start q - m + 2 is marked in ok. */
  predicate ReportsMarked(pattern: seq<int>, hits: seq<bool>, ok: seq<bool>)
    requires |pattern| >= 2
  {
    forall q :: 0 <= q < |hits| ==>
      hits[q] == (q >= |pattern| - 2 && q - |pattern| + 2 < |ok| && ok[q - |pattern| + 2])
  }

  /** Reports made exactly after the boundaries that close a marked window
      give, flattened, matchcheck on the first k marked starts. */
  lemma {:induction false} ReportsPassed(chords: seq<seq<int>>, pattern: seq<int>, hits: seq<bool>, ok: seq<bool>, k: nat)
    requires |pattern| >= 2 && |hits| < |chords| && k <= |ok|
    requires |hits| == k + |pattern| - 2 && ReportsMarked(pattern, hits, ok)
    ensures Flatten(Reports(chords, pattern, hits)) == PassedUpTo(chords, pattern, ok, k)
  {
    if k == 0 {
      forall q | 0 <= q < |hits| ensures !hits[q] {
        assert ReportsMarked(pattern, hits, ok);
      }
      NoReports(chords, pattern, hits);
    } else {
      var front := hits[..|hits| - 1];
      var last := hits[|hits| - 1];
      assert ReportsMarked(pattern, front, ok) by {
        forall q | 0 <= q < |front| ensures front[q] == hits[q] { }
      }
      ReportsPassed(chords, pattern, front, ok, k - 1);
      assert last == ok[k - 1];
      var extra := if last then [CheckAt(chords, |hits| - |pattern| + 1, pattern)] else [];
      assert Reports(chords, pattern, hits) == Reports(chords, pattern, front) + extra;
      FlattenSnoc(Reports(chords, pattern, front), extra);
    }
  }
}
