// Result records of the matchers.
module Records {

  datatype Option<T> = None | Some(value: T)

  /** `{ :start => s, :end => e, :notes => ns }`: a match of the whole
      pattern in chords `start` to `end`, with the matched pitches. */
  datatype Match = Match(start: int, end: int, notes: seq<int>)

  /** `{ :start => s, :end => e }`: a window reported by ShiftOrAnd. */
  datatype Window = Window(start: int, end: int)

  /** Every value is a MIDI pitch, so it indexes the 128-entry tables. */
  predicate MidiPitches(s: seq<int>)
  {
    forall i :: 0 <= i < |s| ==> 0 <= s[i] <= 127
  }

  predicate MidiChords(chords: seq<seq<int>>)
  {
    forall j :: 0 <= j < |chords| ==> MidiPitches(chords[j])
  }

  /** A position of x in s. */
  lemma {:induction false} IndexOf<T>(s: seq<T>, x: T) returns (i: nat)
    requires x in s
    ensures i < |s| && s[i] == x
  {
    if s[0] == x {
      i := 0;
    } else {
      assert x in s[1..];
      i := IndexOf(s[1..], x);
      i := i + 1;
    }
  }
}
