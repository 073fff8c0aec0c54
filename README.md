# Bit-parallel music retrieval, modelled in Dafny

This project models the `BPMIR` class of `lib/bpmir.rb` and the
`MIDI2Chords` callback of `lib/smf.rb`.

`BPMIR` holds bit-parallel filters that find a monophonic pattern (a
sequence of pitches) in a polyphonic score (a sequence of chords). The
filters are:

- `monopoly`: transposition invariant and octave equivalent, over the
  boundary masks of `monopoly_preprocess`;
- `mp`: exact intervals;
- `mp2`: interval classes mod 12;
- `shiftorand`: exact pitches.

Each filter hands its candidate windows to `matchcheck`. Two direct
matchers, `directcheck` and `directcheck2`, need no automaton.
`MIDI2Chords` collects the notes of a MIDI file and groups them into
chords.

The entities are modelled as follows:

- Words are unbounded naturals with bitwise `And`/`Or`. `x | y == y` is
  `OrEquals`, defined bit by bit, with two's complement for a negative
  `y`.
- `VOCSIZE = 12` and `ONES = 4095` are constants. The machine word length
  `WORDLENGTH` is a parameter `w`.
- A chord is a `seq<int>` of pitches. A pattern is a `seq<int>`, one
  pitch per byte of the source's pattern string.
- A match record `{:start, :end, :notes}` is `Match(start, end, notes)`.
  shiftorand's `{:start, :end}` is `Window(start, end)`.

Every filter is a `method` whose loop is proved against a specification
function of its inputs. The lemmas beside it say what that function
reports:

- the exact set of windows;
- the windows directcheck2 finds;
- every window, for a filter as written that filters nothing.

Each filter is also given in corrected form: monopoly with an all-ones
start, mp/mp2 with an `m - 1`-bit state mask and a per-chord `tmp`, and
shiftorand with a per-chord `tmp`. The source's behaviour and the
corrected behaviour are each proved, and compared on concrete inputs.
`MIDI2Chords` is a `class` whose fields are the callback's instance
variables. Its methods update them as the callbacks do.

Modules: `Bits` (words, rcs), `Automaton` (the shift-and step and run),
`Records`, `Matching` (matchcheck, get_pattern_intervals, directcheck,
directcheck2), `Preprocess`, `Monopoly`, `MonopolyBorrow` (monopoly's
start as written), `IntervalFilter` (mp, mp2), `ShiftOrAndFilter`, `Smf`.

## Model

| member | source | states |
|---|---|---|
| Bits.RcsBit | lib/bpmir.rb:266-268 | bit k of `rcs(v, w, a)` is bit `(k + a) mod w` of v for k < w, and clear above: a right rotation of a w-bit word |
| Bits.RcsRoundTrip | lib/bpmir.rb:266-268 | rotating a w-bit value by a and then by w - a gives the value back |
| Bits.RcsBound | lib/bpmir.rb:266-268 | the result of rcs fits in w bits |
| Bits.OrEqualsBits | lib/bpmir.rb:81 | the source's test `x \| y == y` holds exactly when every bit of x is a bit of y |
| Preprocess.MonopolyPreprocess | lib/bpmir.rb:24-47 | one mask per pair of adjacent chords (none for fewer than two chords), mask j being BoundaryMask(chords[j], chords[j + 1]) |
| Preprocess.PreprocessBoundary | lib/bpmir.rb:29-44 | the two inner loops compute BoundaryMask of the two chords |
| Preprocess.ReachLoop | lib/bpmir.rb:34-39 | the loop over the right chord yields ReachMask: all ones but the bits (note - base) mod 12 (meaning proved in Preprocess.ReachMaskBits) |
| Preprocess.ShiftsLoop | lib/bpmir.rb:42-43 | the loop over the rest of the left chord yields Shifts: ONES ANDed with the reach mask circularly shifted right (rcs) by each later note's distance mod 12 from the base |
| Preprocess.ReachMaskBits | lib/bpmir.rb:34-39 | bit k of the reach mask is clear exactly when k < 12 and some note of the right chord lies k above the base mod 12; the test `s[j] \| tmp != tmp` clears each bit once |
| Preprocess.BoundaryMaskBits | lib/bpmir.rb:29-44 | bit k of the mask is clear exactly when k < 12 and some note of the left chord and some note of the right chord are k apart mod 12 |
| Preprocess.BoundaryMaskRange | lib/bpmir.rb:29-44 | the mask is at most ONES; when the right chord has a note it is below ONES, a valid index of monopoly's table |
| Preprocess.SingleNoteBoundary | lib/bpmir.rb:34-39 | for a one-note left chord, bit k is clear exactly when some note of the right chord lies k above it mod 12 |
| Monopoly.BuildL | lib/bpmir.rb:62-69 | l[c] is the start value minus `2 ** (k - 1)` for each pattern interval k of class c |
| Monopoly.BuildT | lib/bpmir.rb:71-77 | t has ONES entries; t[kk] is the mask ANDed with l[k] for every class k that kk allows |
| Monopoly.MonopolyFilter | lib/bpmir.rb:79-85 | for any start value, the reports equal MonopolySpec: after boundary j, matchcheck at j - m + 2 exactly when the automaton run passes `e \| em == em` |
| Monopoly.Monopoly | lib/bpmir.rb:51-86 | as written, with e and l starting at `2 ** m - 2`, the reports equal MonopolySpec from that start; no report for a pattern under two notes with no boundaries |
| Monopoly.MonopolyCorrected | lib/bpmir.rb:51-86 | with e and l starting at `2 ** m - 1`, the reports equal MonopolySpec from the all-ones start |
| Monopoly.FixedWordBit | lib/bpmir.rb:67-77 | from the all-ones start, bit b of the word read at boundary q is clear exactly when that boundary's mask allows the pattern interval `pattern[b + 1] - pattern[b]` mod 12 |
| Monopoly.MonoFixedReportIff | lib/bpmir.rb:79-83 | from the all-ones start, a report follows boundary n exactly when the last m - 1 masks allow the pattern's m - 1 intervals in order |
| Monopoly.MonopolyAsDirectCheck2 | lib/bpmir.rb:79-84 | from the all-ones start, for 2 <= m <= 12, the flattened reports are exactly directcheck2's matches |
| MonopolyBorrow.LEntryLower | lib/bpmir.rb:58-69 | for every pattern and start, l built from `initial - 1` is one below l built from `initial`, entry by entry |
| MonopolyBorrow.BorrowedEntry | lib/bpmir.rb:62-69 | as written, bit 0 of l[c] is set exactly for the class c of the first pattern interval, the reverse of the intended table |
| MonopolyBorrow.BorrowedWordBit | lib/bpmir.rb:71-77 | as written, bit 0 of t[kk] is clear exactly when kk allows some class other than the first interval's (FixedWordBit gives the intended rule) |
| MonopolyBorrow.ArpeggioMasks | lib/bpmir.rb:24-47 | the preprocessing masks of the chords C, E, G are 4079 and 4087 |
| MonopolyBorrow.BorrowMissesWindow | lib/bpmir.rb:56-84 | as written, on the chords C, E, G with pattern C-E-G, monopoly reports only a start of -1, and the wrapped chords G, C, E that Ruby reads there hold no match |
| MonopolyBorrow.FullFindsWindow | lib/bpmir.rb:56-84 | with the all-ones start, the same input reports the match at chords 0-2 with notes 60, 64, 67, as directcheck2 does |
| IntervalFilter.BuildTable | lib/bpmir.rb:93-95 | mp's 255-entry or mp2's 13-entry table has m - 1 one-bits per entry, minus bit i where the pattern's i-th interval (exact, or mod 12) falls |
| IntervalFilter.MpTableBits | lib/bpmir.rb:125-127 | bit i of entry x is set exactly when i < m - 1 and the i-th pattern interval's slot is not x |
| IntervalFilter.CollectIntervals | lib/bpmir.rb:103-107 | d lists the intervals `b - a` (mp) or `(b - a) % 12` (mp2) of the two chords |
| IntervalFilter.IntervalsMembers | lib/bpmir.rb:137-139 | `d \|= [x]` keeps d free of repeats, and y is in d exactly when some note pair gives the interval y |
| IntervalFilter.AndIntervals | lib/bpmir.rb:109 | tmp is the previous tmp ANDed with the table entry of every interval in d |
| IntervalFilter.MpFilter | lib/bpmir.rb:91-117 | the loop over boundaries reports what MpSpec reports, as written or corrected, for either variant |
| IntervalFilter.Mp | lib/bpmir.rb:89-118 | mp's reports equal MpSpec for exact intervals, as written |
| IntervalFilter.Mp2 | lib/bpmir.rb:121-150 | mp2's reports equal MpSpec for interval classes, as written |
| IntervalFilter.MpReportsEveryBoundary | lib/bpmir.rb:97-113 | as written, with the state mask `initial + 1`, the report test passes at every boundary, for every pattern of m >= 2 notes other than m = 13 |
| IntervalFilter.MpAsWritten | lib/bpmir.rb:102-116 | as written, mp and mp2 report at every boundary k, with matchcheck at k - m + 2: the filter lets every window through |
| IntervalFilter.MpAsWrittenExample | lib/bpmir.rb:89-118 | on chords [60], [61] with pattern 60, 64, mp as written reports one empty matchcheck; corrected, it reports nothing |
| IntervalFilter.MpFixedHit | lib/bpmir.rb:102-116 | corrected, boundary q reports exactly when every interval of the window ending there occurs between its two chords |
| IntervalFilter.MpCorrected | lib/bpmir.rb:102-116 | corrected, the flattened reports are matchcheck over exactly the windows whose intervals all occur |
| IntervalFilter.OccurrenceIntervals | lib/bpmir.rb:137-141 | every window where matchcheck finds a match has each of its interval classes among the chord pairs' classes |
| IntervalFilter.Mp2Lossless | lib/bpmir.rb:134-148 | corrected mp2 (m <= 13) loses no match: its flattened reports are matchcheck over every window |
| ShiftOrAndFilter.TableBits | lib/bpmir.rb:160-161 | bit i of t[x] is set exactly when i < m and the pattern's i-th pitch is not x |
| ShiftOrAndFilter.BuildTable | lib/bpmir.rb:158-161 | the 128 entries are built as Table(pattern) |
| ShiftOrAndFilter.ShiftOrAnd | lib/bpmir.rb:154-175 | the reports equal ShiftOrAndSpec: the window j - m + 1 .. j after chord j when the run passes the test, with tmp never reset |
| ShiftOrAndFilter.ReportIff | lib/bpmir.rb:169-170 | the test `e \| em == em` holds exactly when each of the last m words cleared its pattern bit |
| ShiftOrAndFilter.ShiftOrAndSeen | lib/bpmir.rb:163-173 | as written, a window ending at chord n - 1 is reported exactly when each pattern pitch k has occurred in some chord up to n - m + k |
| ShiftOrAndFilter.ReportsSorted | lib/bpmir.rb:167-173 | every reported window spans m chords and ends in range, and the windows come in increasing order |
| ShiftOrAndFilter.ShiftOrAndFixedExact | lib/bpmir.rb:163-173 | with tmp reset per chord, the reports are exactly the windows whose chord k holds the pattern's k-th pitch |
| ShiftOrAndFilter.FixedReportsOccur | lib/bpmir.rb:163-173 | with tmp reset per chord, every reported window holds the pattern exactly |
| ShiftOrAndFilter.ShiftOrAndTriad | lib/bpmir.rb:154-175 | on chords C, E, G with pattern C-E-G the filter reports the window 0-2 |
| ShiftOrAndFilter.ShiftOrAndSpurious | lib/bpmir.rb:164-168 | as written, adding a chord D reports the window 1-3, which does not hold the pattern |
| ShiftOrAndFilter.ShiftOrAndFixedNotSpurious | lib/bpmir.rb:164-168 | with tmp reset per chord, that window is not reported |
| Matching.Detect | lib/bpmir.rb:288 | `detect` returns the first note of the chord with the wanted pitch class, or none when no note has it |
| Matching.MatchCheck | lib/bpmir.rb:274-300 | the loop over the notes of chord j returns MatchCheckSpec |
| Matching.MatchCheckCorrect | lib/bpmir.rb:274-300 | at most one match per note of chord j; each is an octave-equivalent occurrence over chords j .. j + m - 1 anchored at that note; a note anchors a match exactly when it anchors an occurrence |
| Matching.PathFromIffOccurrence | lib/bpmir.rb:279-292 | the walk from a note succeeds exactly when an octave-equivalent occurrence starts at that note |
| Matching.CheckAt | lib/bpmir.rb:82 | the report for a window start is a matchcheck result exactly when the start is not negative |
| Matching.PatternIntervals | lib/bpmir.rb:304-313 | nil for fewer than two pitches, otherwise the m - 1 successive differences |
| Matching.IntervalsTelescope | lib/bpmir.rb:304-313 | the first pitch plus the first k intervals is the k-th pitch |
| Matching.DirectCheck | lib/bpmir.rb:179-221 | the loops return DirectCheckSpec |
| Matching.DirectCheckCorrect | lib/bpmir.rb:179-221 | a record is reported exactly when it spans m chords and its notes are a transposition-invariant occurrence of the pattern |
| Matching.DirectCheck2 | lib/bpmir.rb:228-260 | the loops return DirectCheck2Spec |
| Matching.DirectCheck2Unfiltered | lib/bpmir.rb:228-260 | with the masks monopoly_preprocess produces, directcheck2 returns matchcheck over every window: the mask test loses nothing |
| Matching.RejectsOnlyEmpty | lib/bpmir.rb:244-249 | when every rejected window has no match, directcheck2 equals matchcheck over every window |
| Smf.SortBy | lib/smf.rb:53 | the notes sorted by start, as a permutation of the input |
| Smf.MakeChords | lib/smf.rb:57-74 | one chord per run of equal starts, in input order; every chord but the last is sorted and holds its run's pitches; the last keeps input order |
| Smf.GroupsAreRuns | lib/smf.rb:63-71 | the runs concatenate to the notes, each run has one start, and adjacent runs differ in start |
| Smf.ChordsKeepPitches | lib/smf.rb:57-74 | the chords together hold exactly the pitches of the notes, as a multiset |
| Smf.Midi2Chords.Header | lib/smf.rb:23-28 | no notes on, no tracks, current track -1; the offset is left for track_start |
| Smf.Midi2Chords.TrackStart | lib/smf.rb:30-34 | a new empty track becomes current and the offset is 0; notes on are kept |
| Smf.Midi2Chords.Delta | lib/smf.rb:36-38 | the offset grows by d, and nothing else changes |
| Smf.Midi2Chords.NoteOff | lib/smf.rb:40-43 | for a key that is on, the note (start, offset - start, pitch) joins the current track; for a missing key ok is false and nothing changes |
| Smf.Midi2Chords.NoteOn | lib/smf.rb:45-48 | velocity 0 acts as NoteOff; otherwise the key maps to the current offset and the tracks are kept |
| Smf.Midi2Chords.Result | lib/smf.rb:50-55 | the chords are MakeChords of some start-sorted permutation of all the notes of all tracks |

## Left out

- lib/utils.rb is not part of this model. The SMF library that parses the file and calls the callbacks is not part of it either.
- Smf.Midi2Chords.Header: `@s`, the formatted header string, is not modelled, and neither are the format, ntrks and division arguments. Only the chords are the class's output.
- The detection of `WORDLENGTH` from the platform (lib/bpmir.rb:14) is not modelled: w is a parameter of every filter.
- Smf.Result: `sort!` is not a stable sort, so the model promises some start-sorted permutation of the notes, not a particular one.
- Matching.CheckAt: for a negative window start it returns None. Ruby's `matchcheck(chords, s, pattern)` then reads `chords[s]` from the end of the list and can return matches with a negative `:start`. Those reports are not modelled.
- Mp: its first m - 2 reports use a negative start, so they become None (see CheckAt) instead of Ruby's wrapped-around matchcheck.
- Mp2: the same holds for its first m - 2 reports.
- Monopoly: its reports at a negative start become None (see CheckAt). With the as-written start this happens at its first report in BorrowMissesWindow. With the all-ones start and m <= 12, MonoFixedReportIff shows that no report has a negative start.
- Monopoly: its requires excludes inputs that make Ruby raise. A mask equal to ONES indexes `t` past its last entry, and `t[4095]` is nil (lib/bpmir.rb:71). A pattern under two notes makes `em` fractional (lib/bpmir.rb:60) at the first boundary test.
- Monopoly: the as-written start `2 ** m - 2` is characterized by LEntryLower, BorrowedEntry and BorrowedWordBit for every pattern, and by BorrowMissesWindow on one input. The model has no closed form for the windows it reports on every input.
- MonopolyCorrected: requires two pattern notes and masks below ONES, as Monopoly does.
- Monopoly.MonopolyAsDirectCheck2: stated for patterns of at most 12 notes. Longer patterns have more intervals than the 12-bit em can test.
- Mp: MpRange requires two pattern notes. With one note `em` is fractional (lib/bpmir.rb:99) and Ruby raises at the first boundary. The model also requires this when there is no boundary, where Ruby returns [].
- Mp: MpRange also requires MIDI pitches 0-127 in pattern and chords. Only then does every exact interval fit mp's table of -127 .. 127 (lib/bpmir.rb:94). Outside it Ruby raises on a missing entry, or reads from the end of the table for a negative index. mp2's table keys are always in range, so Mp2 does not require this.
- Mp2: requires two pattern notes, for the same reason as Mp (lib/bpmir.rb:131).
- IntervalFilter.MpReportsEveryBoundary: not stated for m = 13. There bit 12 of the state lies outside `em`, and the report depends on the run.
- IntervalFilter.MpCorrected: stated for m <= 13 and m - 1 <= w, where the state fits in the em test and in the word.
- The comment at lib/bpmir.rb:88 calls mp octave equivalent. The code takes exact differences `b - a` (lib/bpmir.rb:106) and a table keyed by exact intervals, and the model follows the code.
- ShiftOrAnd: requires a pattern of at least one note. An empty pattern makes `em` fractional (lib/bpmir.rb:165) and Ruby raises.
- ShiftOrAnd: requires MIDI pitches 0-127 in pattern and chords. A pitch above 127 makes `t[note]` nil and Ruby raises. A negative pitch would index the table from its end.
- MonopolyPreprocess: Preprocessable requires that an empty chord is followed only by an empty chord. Otherwise the nil base of the empty chord makes Ruby raise (lib/bpmir.rb:33-35).
- MonopolyPreprocess: BoundaryMaskBits proves the meaning the code computes. Bit k is clear when SOME note of chord j and SOME note of chord j + 1 are k apart mod 12, because the AND of the rotations clears a bit that any one rotation clears. The stronger reading of the mask, with bit k clear only when EVERY note of chord j moved by k lands on chord j + 1, is not what lib/bpmir.rb:41-44 computes, and the model does not state it.
- DirectCheck: requires two pattern notes. For fewer, get_pattern_intervals returns nil (lib/bpmir.rb:307) and `p.size` raises.
- DirectCheck2: requires at least one pattern note. With an empty pattern the loop reads a chord past the end.
- Smf.MakeChords: requires at least one note. `notes[0].strt` raises on an empty list (lib/smf.rb:60).
- Smf.Result: requires at least one note, for the same reason as MakeChords.
- Smf.Midi2Chords.Delta: requires a started track. Before track_start `@offset` is nil and Ruby raises.
- Smf.Midi2Chords.NoteOff: requires a started track. Before track_start the current track does not exist.
- Smf.Midi2Chords.NoteOn: requires a started track. Before track_start Ruby would record a nil offset for a velocity other than 0; that case is not modelled.
- A pattern is a sequence of integers. Ruby's `.ord` on the pattern string and `unpack('c*')` in get_pattern_intervals agree only for the byte values 0..127, and the model does not separate them.

## Findings

| source | as written | input that shows it | evidently intended | confidence | as-written member | corrected member |
|---|---|---|---|---|---|---|
| lib/bpmir.rb:58 | `e = initial - 1`, and `l[k] = e` at line 64: the state and every table entry start at `2 ** m - 2`, and the subtractions at line 68 borrow from a clear bit 0 | chords [60], [64], [67] with pattern C-E-G: the masks are 4079, 4087; the only report is for start -1, and the match at chords 0-2 is missed | `e = initial` and `l[k] = initial`: the all-ones start of Shift-And, under which monopoly reports exactly directcheck2's matches | high; not executed | MonopolyBorrow.BorrowMissesWindow | Monopoly.MonopolyCorrected |
| lib/bpmir.rb:98 | `mask = initial + 1` keeps only bit m - 1 of the state; with `tmp` set once at line 100 and never reset, the report test passes whatever the chords | chords [60], [61] with pattern 60, 64: mp reports one (empty) matchcheck, though the interval 1 is not the pattern's 4 | `mask = initial` and `tmp = 2 ** WORDLENGTH - 1` before each boundary, so that a window is a candidate only when its intervals all occur | medium; not executed | IntervalFilter.MpAsWritten | IntervalFilter.MpCorrected |
| lib/bpmir.rb:130 | the same state mask `initial + 1`, with `tmp` set once at line 132, in mp2 | any input with a boundary, for example the chords and pattern above: mp2 reports a matchcheck at every boundary, whatever the chords | `mask = initial` and `tmp` reset before each boundary; the corrected filter then loses no match | medium; not executed | IntervalFilter.MpReportsEveryBoundary | IntervalFilter.Mp2Lossless |
| lib/bpmir.rb:164 | `tmp` is set once before the loop of line 167 and only ever ANDed, so a pitch seen in any earlier chord keeps its bit clear | chords [60], [64], [67], [50] with pattern C-E-G: the window 1-3 is reported, though chord 1 does not hold C | `tmp = 2 ** WORDLENGTH - 1` at the start of each chord, giving exact matches only | high; not executed | ShiftOrAndFilter.ShiftOrAndSpurious | ShiftOrAndFilter.ShiftOrAndFixedExact |
