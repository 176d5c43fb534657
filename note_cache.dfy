/**
 * The client-side note cache of `lib.ts`: an ordered list of fetched date
 * ranges, each holding the notes fetched for it. A read is answered from
 * the first range that covers it; a miss is fetched and merged into the
 * list; creating, updating and deleting a note edit the cached note lists.
 *
 * Dates are day numbers (`Calendar.DayNumber`): there the comparisons of
 * JavaScript dates are integer comparisons, `isSameDay` is `==`, and
 * `datePlusOne` / `dateMinusOne` are `+ 1` / `- 1`.
 */
module NoteCache {
  import opened Wrappers

  /** A calendar day as its day number. */
  type Day = int

  /** `NoteData`: a server-assigned id, the note's day and its text. */
  datatype Note = Note(id: int, date: Day, content: string)

  /** `RangeNoteData`: the notes fetched for the days `start..end`. */
  datatype Range = Range(start: Day, end: Day, notes: seq<Note>)

  // ---------------------------------------------------------------------
  // Searching a list

  /** The index of the first element satisfying `p`, or `|s|` when none does. */
  function FirstIndex<T>(s: seq<T>, p: T -> bool): (k: nat)
    ensures k <= |s|
    ensures k < |s| ==> p(s[k])
    ensures forall j :: 0 <= j < k ==> !p(s[j])
  {
    if s == [] then 0
    else if p(s[0]) then 0
    else 1 + FirstIndex(s[1..], p)
  }

  // ---------------------------------------------------------------------
  // joinData

  /** The ids of a note list, `new Set(notes.map(note => note.id))`. */
  function Ids(notes: seq<Note>): set<int> {
    set n | n in notes :: n.id
  }

  /** No id occurs twice in the list. */
  predicate UniqueIds(notes: seq<Note>) {
    forall i, j :: 0 <= i < j < |notes| ==> notes[i].id != notes[j].id
  }

  /** The notes of `notes`, in order, whose id is not in `ids`. */
  function Unseen(notes: seq<Note>, ids: set<int>): (r: seq<Note>)
    ensures |r| <= |notes|
  {
    if notes == [] then []
    else
      var last := notes[|notes| - 1];
      Unseen(notes[..|notes| - 1], ids) + (if last.id in ids then [] else [last])
  }

  /** `Unseen` keeps exactly the notes whose id is not in `ids`. */
  lemma {:induction false} UnseenMembers(notes: seq<Note>, ids: set<int>)
    ensures forall n :: n in Unseen(notes, ids) <==> n in notes && n.id !in ids
    decreases |notes|
  {
    if notes != [] {
      var prefix := notes[..|notes| - 1];
      UnseenMembers(prefix, ids);
      assert notes == prefix + [notes[|notes| - 1]];
    }
  }

  /** What `joinData(data1, data2)` leaves in `data1`: `data1`, then every
      note of `data2` whose id was not among `data1`'s ids on entry. */
  function Joined(data1: seq<Note>, data2: seq<Note>): seq<Note> {
    data1 + Unseen(data2, Ids(data1))
  }

  /** `joinData`: pushes onto `data1` each note of `data2` whose id was not
      in `data1` when the call began, and returns `data1`. */
  method JoinData(data1: seq<Note>, data2: seq<Note>) returns (r: seq<Note>)
    ensures r == Joined(data1, data2)
  {
    var existed := Ids(data1);
    r := data1;
    var k := 0;
    while k < |data2|
      invariant 0 <= k <= |data2|
      invariant r == data1 + Unseen(data2[..k], existed)
    {
      ghost var seen := Unseen(data2[..k], existed);
      assert data2[..k + 1][..k] == data2[..k];
      if data2[k].id !in existed {
        assert Unseen(data2[..k + 1], existed) == seen + [data2[k]];
        r := r + [data2[k]];
        assert r == data1 + (seen + [data2[k]]);
      } else {
        assert Unseen(data2[..k + 1], existed) == seen;
      }
      k := k + 1;
    }
    assert data2[..k] == data2;
  }

  // ---------------------------------------------------------------------
  // Lookup

  /** The range's days include `day`, both ends included. */
  predicate Contains(e: Range, day: Day) {
    e.start <= day <= e.end
  }

  /** The range's days include the whole request `start..end`. */
  predicate Covers(e: Range, start: Day, end: Day) {
    e.start <= start && end <= e.end
  }

  /** The lookup filter: the notes dated from `start` to `end`, both ends
      included, in stored order. */
  function NotesBetween(notes: seq<Note>, start: Day, end: Day): (r: seq<Note>)
    ensures |r| <= |notes|
    ensures forall n :: n in r <==> n in notes && start <= n.date <= end
  {
    if notes == [] then []
    else
      var last := notes[|notes| - 1];
      NotesBetween(notes[..|notes| - 1], start, end)
        + (if start <= last.date <= end then [last] else [])
  }

  /** Where the cache answers `start..end`: the index of the first range
      covering it, or the number of ranges on a miss. */
  function FirstCovering(entries: seq<Range>, start: Day, end: Day): nat {
    FirstIndex(entries, (e: Range) => Covers(e, start, end))
  }

  /** The cached answer for `start..end`: the first covering range's notes
      dated inside the request, or `None` on a miss. */
  function LookupIn(entries: seq<Range>, start: Day, end: Day): Option<seq<Note>> {
    var k := FirstCovering(entries, start, end);
    if k < |entries| then Some(NotesBetween(entries[k].notes, start, end)) else None
  }

  // ---------------------------------------------------------------------
  // updateCache

  /** The four cases `updateCache` tries against one range, in its order. */
  datatype Branch = LeftExtend | RightExtend | Superset | Contained | NoMatch

  /** Which case of `updateCache` a fetched range `start..end` falls in
      against the cached range `e`. */
  function Classify(e: Range, start: Day, end: Day): (b: Branch)
    ensures start <= end && e.start <= e.end ==>
      (b == NoMatch <==> end < e.start - 1 || e.end < start)
    ensures b == Contained <==> Covers(e, start, end)
  {
    if start < e.start && end >= e.start - 1 && end <= e.end then LeftExtend
    else if start >= e.start && start < e.end + 1 && end > e.end then RightExtend
    else if start < e.start && end > e.end then Superset
    else if start >= e.start && end <= e.end then Contained
    else NoMatch
  }

  /** The first range `fetched` merges with, or the number of ranges. */
  function FirstMatch(entries: seq<Range>, fetched: Range): nat {
    FirstIndex(entries, (e: Range) => Classify(e, fetched.start, fetched.end) != NoMatch)
  }

  /** The range that replaces `e` when `fetched` merges with it. */
  function Merged(e: Range, fetched: Range): Range
    requires Classify(e, fetched.start, fetched.end) != NoMatch
  {
    match Classify(e, fetched.start, fetched.end)
    case LeftExtend => Range(fetched.start, e.end, Joined(fetched.notes, e.notes))
    case RightExtend => Range(e.start, fetched.end, Joined(fetched.notes, e.notes))
    case Superset => fetched
    case Contained => e
  }

  /** The cache after `updateCache(fetched)`: the first range that matches
      is replaced by its merge with `fetched`; with no match, `fetched` is
      appended. */
  function Inserted(entries: seq<Range>, fetched: Range): seq<Range> {
    var k := FirstMatch(entries, fetched);
    if k == |entries| then entries + [fetched] else entries[k := Merged(entries[k], fetched)]
  }

  /** The fetched note array after `updateCache`: `joinData` extends it in
      place when a range is extended, so the caller then holds the merged
      list. */
  function FetchedAfter(entries: seq<Range>, fetched: Range): seq<Note> {
    var k := FirstMatch(entries, fetched);
    if k < |entries| && Classify(entries[k], fetched.start, fetched.end) in {LeftExtend, RightExtend}
    then Merged(entries[k], fetched).notes
    else fetched.notes
  }

  // ---------------------------------------------------------------------
  // Mutation propagation

  /** The position of the first note with id `id`, or `|notes|`. */
  function FirstWithId(notes: seq<Note>, id: int): nat {
    FirstIndex(notes, (n: Note) => n.id == id)
  }

  /** The note list after `updateNote(note)`: the first note with the
      note's id is replaced, the rest left as they are. */
  function ReplaceFirst(notes: seq<Note>, note: Note): seq<Note> {
    var k := FirstWithId(notes, note.id);
    if k < |notes| then notes[k := note] else notes
  }

  /** The note list after `deleteNote(id)`: the first note with that id is
      spliced out. */
  function RemoveFirst(notes: seq<Note>, id: int): seq<Note> {
    var k := FirstWithId(notes, id);
    if k < |notes| then notes[..k] + notes[k + 1..] else notes
  }

  function Updated(entries: seq<Range>, note: Note): (r: seq<Range>)
    ensures |r| == |entries|
  {
    seq(|entries|, i requires 0 <= i < |entries| =>
      entries[i].(notes := ReplaceFirst(entries[i].notes, note)))
  }

  function Deleted(entries: seq<Range>, id: int): (r: seq<Range>)
    ensures |r| == |entries|
  {
    seq(|entries|, i requires 0 <= i < |entries| =>
      entries[i].(notes := RemoveFirst(entries[i].notes, id)))
  }

  /** The first range whose days include `day`, or the number of ranges. */
  function FirstContaining(entries: seq<Range>, day: Day): nat {
    FirstIndex(entries, (e: Range) => Contains(e, day))
  }

  /** The cache after `addNote`: the new note is appended to the first range
      whose days include its date, and nowhere when none does. */
  function Added(entries: seq<Range>, note: Note): seq<Range> {
    var k := FirstContaining(entries, note.date);
    if k < |entries| then entries[k := entries[k].(notes := entries[k].notes + [note])]
    else entries
  }

  /** The inner loop of `updateNote` on one range's notes: scan for the
      note's id and overwrite the first match, then stop. */
  method ReplaceFirstIn(notes: seq<Note>, note: Note) returns (r: seq<Note>)
    ensures r == ReplaceFirst(notes, note)
  {
    r := notes;
    var k := 0;
    while k < |notes|
      invariant 0 <= k <= |notes|
      invariant forall m :: 0 <= m < k ==> notes[m].id != note.id
    {
      if notes[k].id == note.id {
        assert FirstWithId(notes, note.id) == k;
        r := notes[k := note];
        return;
      }
      k := k + 1;
    }
  }

  /** The inner loop of `deleteNote` on one range's notes: scan for the id
      and splice out the first match, then stop. */
  method RemoveFirstIn(notes: seq<Note>, id: int) returns (r: seq<Note>)
    ensures r == RemoveFirst(notes, id)
  {
    r := notes;
    var k := 0;
    while k < |notes|
      invariant 0 <= k <= |notes|
      invariant forall m :: 0 <= m < k ==> notes[m].id != id
    {
      if notes[k].id == id {
        assert FirstWithId(notes, id) == k;
        r := notes[..k] + notes[k + 1..];
        return;
      }
      k := k + 1;
    }
  }

  // ---------------------------------------------------------------------
  // The cache object

  /** `clientData`, made an object: one per session, starting empty. */
  class Cache {
    var entries: seq<Range>

    constructor ()
      ensures entries == []
    {
      entries := [];
    }

    /** The cache-read part of `getNoteData`: scan the ranges in order and
        answer from the first that covers `start..end`. Reads only. */
    method Lookup(start: Day, end: Day) returns (r: Option<seq<Note>>)
      ensures r == LookupIn(entries, start, end)
    {
      var i := 0;
      while i < |entries|
        invariant 0 <= i <= |entries|
        invariant forall j :: 0 <= j < i ==> !Covers(entries[j], start, end)
      {
        var entry := entries[i];
        if start >= entry.start && end <= entry.end {
          var hits: seq<Note> := [];
          var k := 0;
          while k < |entry.notes|
            invariant 0 <= k <= |entry.notes|
            invariant hits == NotesBetween(entry.notes[..k], start, end)
          {
            assert entry.notes[..k + 1][..k] == entry.notes[..k];
            var note := entry.notes[k];
            if note.date >= start && note.date <= end {
              hits := hits + [note];
            }
            k := k + 1;
          }
          assert entry.notes[..k] == entry.notes;
          return Some(hits);
        }
        i := i + 1;
      }
      return None;
    }

    /** `updateCache`: merge a fetched range into the first range it
        matches, or append it. Returns the fetched note array as the caller
        holds it afterwards. */
    method UpdateCache(fetched: Range) returns (notes: seq<Note>)
      modifies this
      ensures entries == Inserted(old(entries), fetched)
      ensures notes == FetchedAfter(old(entries), fetched)
    {
      var startDate, endDate := fetched.start, fetched.end;
      var i := 0;
      while i < |entries|
        invariant 0 <= i <= |entries|
        invariant entries == old(entries)
        invariant forall j :: 0 <= j < i ==> Classify(entries[j], startDate, endDate) == NoMatch
      {
        var entry := entries[i];
        if startDate < entry.start && endDate >= entry.start - 1 && endDate <= entry.end {
          notes := JoinData(fetched.notes, entry.notes);
          entries := entries[i := Range(startDate, entry.end, notes)];
          return;
        } else if startDate >= entry.start && startDate < entry.end + 1 && endDate > entry.end {
          notes := JoinData(fetched.notes, entry.notes);
          entries := entries[i := Range(entry.start, endDate, notes)];
          return;
        } else if startDate < entry.start && endDate > entry.end {
          entries := entries[i := Range(startDate, endDate, fetched.notes)];
          notes := fetched.notes;
          return;
        } else if startDate >= entry.start && endDate <= entry.end {
          notes := fetched.notes;
          return;
        }
        i := i + 1;
      }
      entries := entries + [fetched];
      notes := fetched.notes;
    }

    /** `getNoteData` with the server's answer as the input `served`: a
        cache hit answers from the cache; a miss stores `served` with
        `updateCache` and returns the fetched array as it stands after. */
    method GetNoteData(start: Day, end: Day, served: seq<Note>) returns (r: seq<Note>)
      modifies this
      ensures old(LookupIn(entries, start, end)).Some? ==>
        r == old(LookupIn(entries, start, end)).value && entries == old(entries)
      ensures old(LookupIn(entries, start, end)).None? ==>
        r == FetchedAfter(old(entries), Range(start, end, served))
        && entries == Inserted(old(entries), Range(start, end, served))
    {
      var cached := Lookup(start, end);
      if cached.Some? {
        return cached.value;
      }
      r := UpdateCache(Range(start, end, served));
    }

    /** The cache part of `updateNote`: in every range, the first note with
        the note's id is overwritten in place. */
    method UpdateNote(note: Note)
      modifies this
      ensures entries == Updated(old(entries), note)
    {
      var i := 0;
      while i < |entries|
        invariant 0 <= i <= |entries| && |entries| == |old(entries)|
        invariant forall j :: 0 <= j < i ==>
          entries[j] == old(entries)[j].(notes := ReplaceFirst(old(entries)[j].notes, note))
        invariant forall j :: i <= j < |entries| ==> entries[j] == old(entries)[j]
      {
        var notes := ReplaceFirstIn(entries[i].notes, note);
        entries := entries[i := entries[i].(notes := notes)];
        i := i + 1;
      }
      assert entries == Updated(old(entries), note);
    }

    /** The cache part of `addNote`: the created note, with the id the
        server assigned, is pushed onto the first range containing its date. */
    method AddNote(id: int, date: Day, content: string)
      modifies this
      ensures entries == Added(old(entries), Note(id, date, content))
    {
      var i := 0;
      while i < |entries|
        invariant 0 <= i <= |entries| && entries == old(entries)
        invariant forall j :: 0 <= j < i ==> !Contains(entries[j], date)
      {
        var entry := entries[i];
        if entry.start <= date && entry.end >= date {
          entries := entries[i := entry.(notes := entry.notes + [Note(id, date, content)])];
          break;
        }
        i := i + 1;
      }
    }

    /** The cache part of `deleteNote`: in every range, the first note with
        the id is spliced out. */
    method DeleteNote(id: int)
      modifies this
      ensures entries == Deleted(old(entries), id)
    {
      var i := 0;
      while i < |entries|
        invariant 0 <= i <= |entries| && |entries| == |old(entries)|
        invariant forall j :: 0 <= j < i ==>
          entries[j] == old(entries)[j].(notes := RemoveFirst(old(entries)[j].notes, id))
        invariant forall j :: i <= j < |entries| ==> entries[j] == old(entries)[j]
      {
        var notes := RemoveFirstIn(entries[i].notes, id);
        entries := entries[i := entries[i].(notes := notes)];
        i := i + 1;
      }
      assert entries == Deleted(old(entries), id);
    }
  }
}
