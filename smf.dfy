// SMF::Sequence::MIDI2Chords: the callbacks that collect the notes of a
// standard MIDI file track by track, and make_chords, which groups the
// notes by start time into the chord lists the matchers read.
module Smf {

  /** `NoteStruct(strt, dur, ptch)`: a note starting at tick strt, lasting
      dur ticks, of MIDI pitch ptch. */
  datatype Note = Note(strt: int, dur: int, ptch: int)

  function Start(n: Note): int
  {
    n.strt
  }

  function Identity(x: int): int
  {
    x
  }

  // ---------------------------------------------------------------------
  // Sequences of sequences

  /** The lists one after another: `notes += track` over the tracks. */
  function Concat<T>(ss: seq<seq<T>>): seq<T>
  {
    if ss == [] then [] else Concat(ss[..|ss| - 1]) + ss[|ss| - 1]
  }

  lemma ConcatSnoc<T>(ss: seq<seq<T>>, s: seq<T>)
    ensures Concat(ss + [s]) == Concat(ss) + s
  {
    assert (ss + [s])[..|ss|] == ss;
  }

  /** Appending to the last part appends to the whole. */
  lemma ConcatExtendLast<T>(ss: seq<seq<T>>, x: T)
    requires ss != []
    ensures Concat(ss[..|ss| - 1] + [ss[|ss| - 1] + [x]]) == Concat(ss) + [x]
  {
    var front, last := ss[..|ss| - 1], ss[|ss| - 1];
    var ss' := front + [last + [x]];
    assert ss'[..|ss'| - 1] == front;
    assert Concat(ss') == Concat(front) + (last + [x]);
    assert Concat(ss) == Concat(front) + last;
    AppendAssoc(Concat(front), last, [x]);
  }

  lemma TakeSnoc<T>(s: seq<T>, n: nat)
    requires 1 <= n <= |s|
    ensures s[..n] == s[..n - 1] + [s[n - 1]]
  {
  }

  lemma AppendAssoc<T>(a: seq<T>, b: seq<T>, c: seq<T>)
    ensures a + (b + c) == (a + b) + c
  {
    var l, r := a + (b + c), (a + b) + c;
    assert |l| == |r|;
    forall i | 0 <= i < |l| ensures l[i] == r[i] {
      if i < |a| {
      } else if i < |a| + |b| {
      }
    }
  }

  lemma {:induction false} ConcatPrefix<T>(ss: seq<seq<T>>, k: nat)
    requires k < |ss|
    ensures Concat(ss[..k + 1]) == Concat(ss[..k]) + ss[k]
  {
    assert ss[..k + 1] == ss[..k] + [ss[k]];
    ConcatSnoc(ss[..k], ss[k]);
  }

  // ---------------------------------------------------------------------
  // Sorting by a key (Ruby's sort! with a <=> block)

  predicate SortedBy<T>(s: seq<T>, key: T -> int)
  {
    forall i, j :: 0 <= i < j < |s| ==> key(s[i]) <= key(s[j])
  }

  /** x put into sorted s after every element whose key is at most x's. */
  method InsertBy<T>(s: seq<T>, x: T, key: T -> int) returns (r: seq<T>)
    requires SortedBy(s, key)
    ensures SortedBy(r, key) && multiset(r) == multiset(s) + multiset{x}
  {
    var k := 0;
    while k < |s| && key(s[k]) <= key(x)
      invariant 0 <= k <= |s|
      invariant forall i :: 0 <= i < k ==> key(s[i]) <= key(x)
    {
      k := k + 1;
    }
    r := s[..k] + [x] + s[k..];
    assert s == s[..k] + s[k..];
  }

  /** An ordering of s by key: the sort the source leaves to Ruby, which
      need not be stable. */
  method SortBy<T>(s: seq<T>, key: T -> int) returns (r: seq<T>)
    ensures SortedBy(r, key) && multiset(r) == multiset(s)
  {
    r := [];
    for i := 0 to |s|
      invariant SortedBy(r, key) && multiset(r) == multiset(s[..i])
    {
      assert s[..i + 1] == s[..i] + [s[i]];
      r := InsertBy(r, s[i], key);
    }
    assert s[..|s|] == s;
  }

  // ---------------------------------------------------------------------
  // make_chords

  function PitchAt(notes: seq<Note>, i: int): int
  {
    if 0 <= i < |notes| then notes[i].ptch else 0
  }

  /** The pitches of the notes, in order. */
  function Pitches(notes: seq<Note>): (ps: seq<int>)
    ensures |ps| == |notes|
  {
    seq(|notes|, i => PitchAt(notes, i))
  }

  lemma PitchesAppend(a: seq<Note>, b: seq<Note>)
    ensures Pitches(a + b) == Pitches(a) + Pitches(b)
  {
    assert forall i :: 0 <= i < |a + b| ==> Pitches(a + b)[i] == (Pitches(a) + Pitches(b))[i];
  }

  /** The number of i in 1 .. n - 1 whose note starts at another time than
      note i - 1. */
  function Breaks(notes: seq<Note>, n: nat): nat
    requires n <= |notes|
  {
    if n <= 1 then 0 else Breaks(notes, n - 1) + if notes[n - 1].strt != notes[n - 2].strt then 1 else 0
  }

  /** notes[..n] cut before each note that starts at another time than the
      one before it: one group per chord. */
  function Groups(notes: seq<Note>, n: nat): (gs: seq<seq<Note>>)
    requires 1 <= n <= |notes|
    ensures |gs| == 1 + Breaks(notes, n)
    ensures forall k :: 0 <= k < |gs| ==> gs[k] != []
  {
    if n == 1 then [[notes[0]]]
    else
      var gs := Groups(notes, n - 1);
      if notes[n - 1].strt == notes[n - 2].strt then gs[..|gs| - 1] + [gs[|gs| - 1] + [notes[n - 1]]]
      else gs + [[notes[n - 1]]]
  }

  /** A group's notes all start at one time. */
  predicate Uniform(g: seq<Note>)
  {
    forall i :: 0 <= i < |g| ==> g[i].strt == g[0].strt
  }

  lemma UniformSnoc(g: seq<Note>, x: Note)
    requires g != [] && Uniform(g) && x.strt == g[0].strt
    ensures Uniform(g + [x])
  {
  }

  /** The groups are the maximal runs of notes with equal start: together
      they are the notes in order, each starts at one time, and the next
      group starts at another time. */
  lemma GroupsAreRuns(notes: seq<Note>, n: nat)
    requires 1 <= n <= |notes|
    ensures Concat(Groups(notes, n)) == notes[..n]
    ensures forall k :: 0 <= k < |Groups(notes, n)| ==> Uniform(Groups(notes, n)[k])
    ensures forall k :: 0 <= k < |Groups(notes, n)| - 1 ==>
              Groups(notes, n)[k + 1][0].strt != Groups(notes, n)[k][0].strt
  {
    GroupsConcat(notes, n);
    GroupsUniform(notes, n);
    GroupsMaximal(notes, n);
  }

  lemma {:induction false} GroupsConcat(notes: seq<Note>, n: nat)
    requires 1 <= n <= |notes|
    ensures Concat(Groups(notes, n)) == notes[..n]
  {
    if n == 1 {
      assert Concat([[notes[0]]]) == Concat([]) + [notes[0]];
    } else {
      GroupsConcat(notes, n - 1);
      var gs := Groups(notes, n - 1);
      var x := notes[n - 1];
      if x.strt == notes[n - 2].strt {
        assert Groups(notes, n) == gs[..|gs| - 1] + [gs[|gs| - 1] + [x]];
        ConcatExtendLast(gs, x);
      } else {
        assert Groups(notes, n) == gs + [[x]];
        ConcatSnoc(gs, [x]);
      }
      TakeSnoc(notes, n);
    }
  }

  /** How note i extends the groups of the notes before it: into the last
      group when it starts with note i - 1, as a group of its own otherwise. */
  lemma GroupsStep(notes: seq<Note>, i: nat)
    requires 1 <= i < |notes|
    ensures var gs, gs' := Groups(notes, i), Groups(notes, i + 1);
      if notes[i].strt == notes[i - 1].strt then
        |gs'| == |gs| && (forall k :: 0 <= k < |gs| - 1 ==> gs'[k] == gs[k])
        && gs'[|gs| - 1] == gs[|gs| - 1] + [notes[i]]
      else
        |gs'| == |gs| + 1 && (forall k :: 0 <= k < |gs| ==> gs'[k] == gs[k])
        && gs'[|gs|] == [notes[i]]
  {
  }

  /** Each group starts at one time, the last at that of note n - 1. */
  lemma {:induction false} GroupsUniform(notes: seq<Note>, n: nat)
    requires 1 <= n <= |notes|
    ensures forall k :: 0 <= k < |Groups(notes, n)| ==> Uniform(Groups(notes, n)[k])
    ensures Groups(notes, n)[|Groups(notes, n)| - 1][0].strt == notes[n - 1].strt
  {
    if n > 1 {
      GroupsUniform(notes, n - 1);
      GroupsStep(notes, n - 1);
      var gs, gs' := Groups(notes, n - 1), Groups(notes, n);
      var x := notes[n - 1];
      forall k | 0 <= k < |gs'| ensures Uniform(gs'[k]) {
        if k < |gs| - 1 {
          assert gs'[k] == gs[k];
        } else if x.strt == notes[n - 2].strt {
          UniformSnoc(gs[|gs| - 1], x);
        }
      }
    }
  }

  lemma {:induction false} GroupsMaximal(notes: seq<Note>, n: nat)
    requires 1 <= n <= |notes|
    ensures forall k :: 0 <= k < |Groups(notes, n)| - 1 ==>
              Groups(notes, n)[k + 1][0].strt != Groups(notes, n)[k][0].strt
  {
    if n > 1 {
      GroupsMaximal(notes, n - 1);
      GroupsUniform(notes, n - 1);
      GroupsStep(notes, n - 1);
      var gs: seq<seq<Note>>, gs': seq<seq<Note>> := Groups(notes, n - 1), Groups(notes, n);
      forall k | 0 <= k < |gs'| - 1 ensures gs'[k + 1][0].strt != gs'[k][0].strt {
        assert gs'[k] == gs[k];
        if k + 1 < |gs| {
          assert gs'[k + 1][0] == gs[k + 1][0];
        }
      }
    }
  }

  /** chords is made from the groups gs: one chord per group, every chord
      but the last holding its group's pitches sorted, the last holding them
      in note order. */
  predicate ChordsOfGroups(gs: seq<seq<Note>>, chords: seq<seq<int>>)
    requires gs != []
  {
    |chords| == |gs|
    && (forall k :: 0 <= k < |gs| - 1 ==>
          SortedBy(chords[k], Identity) && multiset(chords[k]) == multiset(Pitches(gs[k])))
    && chords[|gs| - 1] == Pitches(gs[|gs| - 1])
  }

  /** chords is what make_chords gives for the notes. */
  predicate ChordsOf(notes: seq<Note>, chords: seq<seq<int>>)
    requires |notes| >= 1
  {
    ChordsOfGroups(Groups(notes, |notes|), chords)
  }

  /** A note joining the last group joins the last chord. */
  lemma ExtendChord(gs: seq<seq<Note>>, gs': seq<seq<Note>>, chords: seq<seq<int>>, x: Note)
    requires gs != [] && ChordsOfGroups(gs, chords)
    requires |gs'| == |gs| && (forall k :: 0 <= k < |gs| - 1 ==> gs'[k] == gs[k])
    requires gs'[|gs| - 1] == gs[|gs| - 1] + [x]
    ensures ChordsOfGroups(gs', chords[|chords| - 1 := chords[|chords| - 1] + [x.ptch]])
  {
    PitchesAppend(gs[|gs| - 1], [x]);
    assert Pitches([x]) == [x.ptch];
  }

  /** A note starting a group closes the last chord, sorted, and starts a
      chord of its own. */
  lemma NewChord(gs: seq<seq<Note>>, gs': seq<seq<Note>>, chords: seq<seq<int>>, sorted: seq<int>, x: Note)
    requires gs != [] && ChordsOfGroups(gs, chords)
    requires |gs'| == |gs| + 1 && (forall k :: 0 <= k < |gs| ==> gs'[k] == gs[k]) && gs'[|gs|] == [x]
    requires SortedBy(sorted, Identity) && multiset(sorted) == multiset(chords[|chords| - 1])
    ensures ChordsOfGroups(gs', chords[|chords| - 1 := sorted] + [[x.ptch]])
  {
    assert Pitches([x]) == [x.ptch];
  }

  /** `make_chords(notes)`: the source reads notes[0] and so needs one note. */
  method MakeChords(notes: seq<Note>) returns (chords: seq<seq<int>>)
    requires |notes| >= 1
    ensures ChordsOf(notes, chords)
  {
    var j := 0;
    var strt := notes[0].strt;
    chords := [[notes[0].ptch]];
    assert Pitches([notes[0]]) == [notes[0].ptch];
    for i := 1 to |notes|
      invariant j == |chords| - 1
      invariant strt == notes[i - 1].strt
      invariant ChordsOfGroups(Groups(notes, i), chords)
    {
      GroupsStep(notes, i);
      if notes[i].strt == strt {
        ExtendChord(Groups(notes, i), Groups(notes, i + 1), chords, notes[i]);
        chords := chords[j := chords[j] + [notes[i].ptch]];
      } else {
        var sorted := SortBy(chords[j], Identity);
        NewChord(Groups(notes, i), Groups(notes, i + 1), chords, sorted, notes[i]);
        chords := chords[j := sorted];
        j := j + 1;
        strt := notes[i].strt;
        chords := chords + [[notes[i].ptch]];
      }
    }
  }

  /** Between them the chords hold the pitches of all the notes. */
  lemma ChordsKeepPitches(notes: seq<Note>, chords: seq<seq<int>>)
    requires |notes| >= 1 && ChordsOf(notes, chords)
    ensures multiset(Concat(chords)) == multiset(Pitches(notes))
  {
    var gs := Groups(notes, |notes|);
    GroupMultisets(gs, chords);
    ChordsKeepGroups(gs, chords, |gs|);
    assert gs[..|gs|] == gs;
    assert chords[..|chords|] == chords;
    GroupsConcat(notes, |notes|);
    assert notes[..|notes|] == notes;
  }

  lemma GroupMultisets(gs: seq<seq<Note>>, chords: seq<seq<int>>)
    requires gs != [] && ChordsOfGroups(gs, chords)
    ensures forall i :: 0 <= i < |gs| ==> multiset(chords[i]) == multiset(Pitches(gs[i]))
  {
  }

  lemma {:induction false} ChordsKeepGroups(gs: seq<seq<Note>>, chords: seq<seq<int>>, k: nat)
    requires k <= |gs| == |chords|
    requires forall i :: 0 <= i < |gs| ==> multiset(chords[i]) == multiset(Pitches(gs[i]))
    ensures multiset(Concat(chords[..k])) == multiset(Pitches(Concat(gs[..k])))
  {
    if k > 0 {
      ChordsKeepGroups(gs, chords, k - 1);
      ConcatPrefix(chords, k - 1);
      ConcatPrefix(gs, k - 1);
      PitchesAppend(Concat(gs[..k - 1]), gs[k - 1]);
    } else {
      assert chords[..0] == [] && gs[..0] == [];
    }
  }

  // ---------------------------------------------------------------------
  // The callbacks

  class Midi2Chords {
    /** @notes_on: the offset of the last note-on of each (channel, note). */
    var notesOn: map<(int, int), int>
    /** @tracks: the notes of each track, in note-off order. */
    var tracks: seq<seq<Note>>
    /** @currenttrack: the index of the track being read, -1 before the first. */
    var currenttrack: int
    /** @offset: the absolute time in the current track, set by track_start. */
    var offset: int

    /** The current track is the last one started. */
    predicate Valid()
      reads this
    {
      currenttrack == |tracks| - 1
    }

    /** Every note collected so far, track after track. */
    function AllNotes(): seq<Note>
      reads this
    {
      Concat(tracks)
    }

    /** `header(format, ntrks, division)`: no notes on, no track yet.
        The offset is left unset until the first track starts. */
    constructor Header()
      ensures Valid()
      ensures notesOn == map[] && tracks == [] && currenttrack == -1
    {
      notesOn := map[];
      tracks := [];
      currenttrack := -1;
    }

    /** `track_start`: a new, empty track at offset 0. */
    method TrackStart()
      requires Valid()
      modifies this
      ensures Valid()
      ensures offset == 0 && currenttrack == old(currenttrack) + 1
      ensures tracks == old(tracks) + [[]] && notesOn == old(notesOn)
    {
      offset := 0;
      currenttrack := currenttrack + 1;
      tracks := tracks + [[]];
    }

    /** `delta(d)`: time moves on by d ticks in the current track. */
    method Delta(d: int)
      requires Valid() && currenttrack >= 0
      modifies this
      ensures Valid()
      ensures offset == old(offset) + d
      ensures tracks == old(tracks) && currenttrack == old(currenttrack) && notesOn == old(notesOn)
    {
      offset := offset + d;
    }

    /** `noteoff(ch, note, vel)`: the note keyed (ch, note) ends now and
        joins the current track; ok is false where the source's `fetch`
        raises KeyError, nothing changing then.  The key stays recorded. */
    method NoteOff(ch: int, note: int, vel: int) returns (ok: bool)
      requires Valid() && currenttrack >= 0
      modifies this
      ensures Valid()
      ensures ok <==> (ch, note) in old(notesOn)
      ensures ok ==> tracks == old(tracks)[old(currenttrack) := old(tracks)[old(currenttrack)]
                                 + [Note(old(notesOn)[(ch, note)], offset - old(notesOn)[(ch, note)], note)]]
      ensures !ok ==> tracks == old(tracks)
      ensures notesOn == old(notesOn) && offset == old(offset) && currenttrack == old(currenttrack)
    {
      if (ch, note) !in notesOn {
        return false;
      }
      var strt := notesOn[(ch, note)];
      tracks := tracks[currenttrack := tracks[currenttrack] + [Note(strt, offset - strt, note)]];
      ok := true;
    }

    /** `noteon(ch, note, vel)`: velocity 0 is a note-off; otherwise the
        note is on from now, and the tracks stay as they are. */
    method NoteOn(ch: int, note: int, vel: int) returns (ok: bool)
      requires Valid() && currenttrack >= 0
      modifies this
      ensures Valid()
      ensures vel != 0 ==> ok && notesOn == old(notesOn)[(ch, note) := offset] && tracks == old(tracks)
      ensures vel == 0 ==> (ok <==> (ch, note) in old(notesOn)) && notesOn == old(notesOn)
      ensures vel == 0 && ok ==> tracks == old(tracks)[old(currenttrack) := old(tracks)[old(currenttrack)]
                                   + [Note(old(notesOn)[(ch, note)], offset - old(notesOn)[(ch, note)], note)]]
      ensures vel == 0 && !ok ==> tracks == old(tracks)
      ensures offset == old(offset) && currenttrack == old(currenttrack)
    {
      if vel == 0 {
        ok := NoteOff(ch, note, vel);
      } else {
        notesOn := notesOn[(ch, note) := offset];
        ok := true;
      }
    }

    /** `result`: the notes of all tracks ordered by start, then grouped
        into chords.  make_chords needs one note. */
    method Result() returns (chords: seq<seq<int>>)
      requires |AllNotes()| >= 1
      ensures exists notes :: |notes| >= 1 && SortedBy(notes, Start)
                && multiset(notes) == multiset(AllNotes()) && ChordsOf(notes, chords)
    {
      var notes: seq<Note> := [];
      for k := 0 to |tracks|
        invariant notes == Concat(tracks[..k])
      {
        ConcatPrefix(tracks, k);
        notes := notes + tracks[k];
      }
      assert tracks[..|tracks|] == tracks;
      notes := SortBy(notes, Start);
      assert |multiset(notes)| == |AllNotes()|;
      chords := MakeChords(notes);
    }
  }
}
