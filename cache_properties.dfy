/**
 * What the note cache of `lib.ts` guarantees, and where it stops.
 *
 * A cached range stands for "every note the server holds for these days".
 * `Sound` and `Complete` state that reading against a server store; the
 * lemmas below show that a lookup hit then answers exactly what the server
 * would, that merging an exact fetch keeps the reading true, and that
 * deleting keeps it too, while updating a note to a day another range
 * covers, or creating a note on a day two ranges share, can leave the
 * cache answering without it.
 */
module CacheProperties {
  import opened Wrappers
  import opened NoteCache

  // ---------------------------------------------------------------------
  // Vocabulary

  /** Some cached range's days include `day`. */
  predicate Covered(entries: seq<Range>, day: Day) {
    exists i :: 0 <= i < |entries| && Contains(entries[i], day)
  }

  /** No range holds two notes with the same id. */
  predicate EachUnique(entries: seq<Range>) {
    forall i :: 0 <= i < |entries| ==> UniqueIds(entries[i].notes)
  }

  /** The server's notes are identified by their ids. */
  predicate KeyedById(store: set<Note>) {
    forall a, b :: a in store && b in store && a.id == b.id ==> a == b
  }

  /** Every cached note is one the server holds. */
  predicate Sound(entries: seq<Range>, store: set<Note>) {
    forall i, n :: 0 <= i < |entries| && n in entries[i].notes ==> n in store
  }

  /** Every range holds each server note dated on one of its days. */
  predicate Complete(entries: seq<Range>, store: set<Note>) {
    forall i, n :: 0 <= i < |entries| && n in store && Contains(entries[i], n.date) ==> n in entries[i].notes
  }

  /** A fetch of `start..end` returns the server's notes dated from `start`
      to `end`, both included (the range query of `store.rs`). */
  ghost predicate ExactFetch(fetched: seq<Note>, store: set<Note>, start: Day, end: Day) {
    forall n :: n in fetched <==> n in store && start <= n.date <= end
  }

  // ---------------------------------------------------------------------
  // joinData

  lemma UniqueAppend(a: seq<Note>, x: Note)
    requires UniqueIds(a) && x.id !in Ids(a)
    ensures UniqueIds(a + [x])
  {
    var r := a + [x];
    forall i, j | 0 <= i < j < |r| ensures r[i].id != r[j].id {
      if j == |a| {
        assert r[i] in a;
      }
    }
  }

  lemma UniqueConcat(a: seq<Note>, b: seq<Note>)
    requires UniqueIds(a) && UniqueIds(b) && Ids(a) !! Ids(b)
    ensures UniqueIds(a + b)
  {
    var r := a + b;
    forall i, j | 0 <= i < j < |r| ensures r[i].id != r[j].id {
      if i < |a| <= j {
        assert r[i] in a && r[j] in b;
        assert r[i].id in Ids(a) && r[j].id in Ids(b);
      } else if |a| <= i {
        assert r[i] == b[i - |a|] && r[j] == b[j - |a|];
      }
    }
  }

  lemma {:induction false} UnseenUnique(notes: seq<Note>, ids: set<int>)
    requires UniqueIds(notes)
    ensures UniqueIds(Unseen(notes, ids))
    decreases |notes|
  {
    if notes != [] {
      var prefix, last := notes[..|notes| - 1], notes[|notes| - 1];
      UnseenUnique(prefix, ids);
      UnseenMembers(prefix, ids);
      if last.id !in ids {
        forall n | n in Unseen(prefix, ids) ensures n.id != last.id {
          var i :| 0 <= i < |prefix| && prefix[i] == n;
        }
        UniqueAppend(Unseen(prefix, ids), last);
      }
    }
  }

  /** `joinData(d1, d2)` keeps `d1` as its prefix, adds exactly the notes of
      `d2` whose id `d1` lacks, so `d1` wins every id collision, and ends up
      with the ids of both. */
  lemma JoinedContents(d1: seq<Note>, d2: seq<Note>)
    ensures Joined(d1, d2)[..|d1|] == d1
    ensures forall n :: n in Joined(d1, d2) <==> n in d1 || (n in d2 && n.id !in Ids(d1))
    ensures forall n :: n in Joined(d1, d2) && n.id in Ids(d1) ==> n in d1
    ensures Ids(Joined(d1, d2)) == Ids(d1) + Ids(d2)
  {
    var r := Joined(d1, d2);
    UnseenMembers(d2, Ids(d1));
    forall id | id in Ids(d1) + Ids(d2) ensures id in Ids(r) {
      var n :| (n in d1 || n in d2) && n.id == id;
      assert n in r || exists m :: m in d1 && m.id == id;
    }
  }

  /** Joining two lists without repeated ids gives a list without repeated ids. */
  lemma JoinedUniqueIds(d1: seq<Note>, d2: seq<Note>)
    requires UniqueIds(d1) && UniqueIds(d2)
    ensures UniqueIds(Joined(d1, d2))
  {
    UnseenUnique(d2, Ids(d1));
    UnseenMembers(d2, Ids(d1));
    UniqueConcat(d1, Unseen(d2, Ids(d1)));
  }

  // ---------------------------------------------------------------------
  // Lookup

  /** A lookup hits exactly when one range covers the whole request, and
      then the first such range answers with its notes inside the request. */
  lemma LookupMeaning(entries: seq<Range>, start: Day, end: Day)
    ensures LookupIn(entries, start, end).None? <==>
      forall i :: 0 <= i < |entries| ==> !Covers(entries[i], start, end)
    ensures LookupIn(entries, start, end).Some? ==>
      exists k :: 0 <= k < |entries| && Covers(entries[k], start, end)
        && (forall j :: 0 <= j < k ==> !Covers(entries[j], start, end))
        && LookupIn(entries, start, end).value == NotesBetween(entries[k].notes, start, end)
  {
    var k := FirstCovering(entries, start, end);
    if k < |entries| {
      assert Covers(entries[k], start, end);
    }
  }

  /** When the cache is sound and complete for the server's notes, a hit
      answers exactly the server's notes dated inside the request. */
  lemma LookupAnswersFromStore(entries: seq<Range>, store: set<Note>, start: Day, end: Day)
    requires Sound(entries, store) && Complete(entries, store)
    requires LookupIn(entries, start, end).Some?
    ensures forall n :: n in LookupIn(entries, start, end).value <==> n in store && start <= n.date <= end
  {
    var k := FirstCovering(entries, start, end);
    assert Covers(entries[k], start, end);
    forall n | n in store && start <= n.date <= end
      ensures n in LookupIn(entries, start, end).value
    {
      assert Contains(entries[k], n.date);
    }
  }

  /** Ranges that together cover a request do not answer it: only a single
      covering range does. */
  lemma LookupMissesAcrossRanges()
    ensures var entries := [Range(1, 10, []), Range(11, 20, [])];
      (forall day :: 5 <= day <= 15 ==> Covered(entries, day))
      && LookupIn(entries, 5, 15) == None
  {
    var entries := [Range(1, 10, []), Range(11, 20, [])];
    forall day | 5 <= day <= 15 ensures Covered(entries, day) {
      if day <= 10 {
        assert Contains(entries[0], day);
      } else {
        assert Contains(entries[1], day);
      }
    }
    LookupMeaning(entries, 5, 15);
  }

  // ---------------------------------------------------------------------
  // updateCache

  /** `updateCache` never removes a range and adds at most one: it changes
      only the first range that matches, or appends the fetched range last
      when none matches. */
  lemma InsertedShape(entries: seq<Range>, fetched: Range)
    ensures var k, r := FirstMatch(entries, fetched), Inserted(entries, fetched);
      && |entries| <= |r| <= |entries| + 1
      && (forall i :: 0 <= i < |entries| && i != k ==> r[i] == entries[i])
      && (|r| == |entries| + 1 <==> forall i :: 0 <= i < |entries| ==> Classify(entries[i], fetched.start, fetched.end) == NoMatch)
      && (|r| == |entries| + 1 ==> r[|entries|] == fetched)
  {
    var k := FirstMatch(entries, fetched);
    if k < |entries| {
      assert Classify(entries[k], fetched.start, fetched.end) != NoMatch;
    }
  }

  /** A merged range spans exactly the days of the old range and of the
      fetched one: extending needs overlap or a left neighbour, so no gap is
      claimed as fetched. */
  lemma MergedCoverage(e: Range, fetched: Range)
    requires Classify(e, fetched.start, fetched.end) != NoMatch
    ensures forall day :: Contains(Merged(e, fetched), day) <==> Contains(e, day) || Contains(fetched, day)
  {
  }

  /** After `updateCache` the cached days are the old ones plus the fetched
      ones, no more and no fewer. */
  lemma InsertedCoverage(entries: seq<Range>, fetched: Range, day: Day)
    ensures Covered(Inserted(entries, fetched), day) <==> Covered(entries, day) || Contains(fetched, day)
  {
    var k, r := FirstMatch(entries, fetched), Inserted(entries, fetched);
    InsertedShape(entries, fetched);
    if k < |entries| {
      MergedCoverage(entries[k], fetched);
      if Covered(r, day) {
        var i :| 0 <= i < |r| && Contains(r[i], day);
        if i != k {
          assert Contains(entries[i], day);
        }
      }
      if Covered(entries, day) {
        var i :| 0 <= i < |entries| && Contains(entries[i], day);
        assert Contains(r[i], day);
      }
      if Contains(fetched, day) {
        assert Contains(r[k], day);
      }
    } else {
      if Covered(r, day) {
        var i :| 0 <= i < |r| && Contains(r[i], day);
        if i < |entries| {
          assert Contains(entries[i], day);
        }
      }
      if Covered(entries, day) {
        var i :| 0 <= i < |entries| && Contains(entries[i], day);
        assert Contains(r[i], day);
      }
      if Contains(fetched, day) {
        assert Contains(r[|entries|], day);
      }
    }
  }

  /** A range starting the day after a cached range ends is not merged with
      it, while a range ending the day before a cached range starts is. */
  lemma AbuttingAsymmetry(e: Range, start: Day, end: Day, notes: seq<Note>)
    requires e.start <= e.end
    ensures e.end < end ==>
      Inserted([e], Range(e.end + 1, end, notes)) == [e, Range(e.end + 1, end, notes)]
    ensures start < e.start ==>
      Inserted([e], Range(start, e.start - 1, notes)) == [Range(start, e.end, Joined(notes, e.notes))]
  {
    if e.end < end {
      var f := Range(e.end + 1, end, notes);
      assert Classify(e, f.start, f.end) == NoMatch;
      assert FirstMatch([e], f) == 1;
    }
    if start < e.start {
      var f := Range(start, e.start - 1, notes);
      assert Classify(e, f.start, f.end) == LeftExtend;
      assert FirstMatch([e], f) == 0;
    }
  }

  /** After a miss, the merged or appended range answers the same request,
      with the fetched array as `updateCache` left it, filtered to the
      request. */
  lemma MissThenInsertHits(entries: seq<Range>, start: Day, end: Day, served: seq<Note>)
    requires LookupIn(entries, start, end).None?
    ensures var fetched := Range(start, end, served);
      LookupIn(Inserted(entries, fetched), start, end)
        == Some(NotesBetween(FetchedAfter(entries, fetched), start, end))
  {
    var fetched := Range(start, end, served);
    var k, r := FirstMatch(entries, fetched), Inserted(entries, fetched);
    LookupMeaning(entries, start, end);
    InsertedShape(entries, fetched);
    var c := if k < |entries| then k else |entries|;
    assert Covers(r[c], start, end);
    forall j | 0 <= j < c ensures !Covers(r[j], start, end) {
      assert r[j] == entries[j];
    }
    assert FirstCovering(r, start, end) == c;
  }

  /** Merging an exact fetch keeps the cache sound and complete: in the
      extending cases the fetched notes win id collisions, and as ids name
      server notes they are the same notes; in the superset case the old
      notes are dropped, but the fetch already holds every one of them. */
  lemma InsertKeepsStoreView(entries: seq<Range>, store: set<Note>, start: Day, end: Day, served: seq<Note>)
    requires KeyedById(store) && Sound(entries, store) && Complete(entries, store)
    requires ExactFetch(served, store, start, end)
    ensures Sound(Inserted(entries, Range(start, end, served)), store)
    ensures Complete(Inserted(entries, Range(start, end, served)), store)
  {
    var fetched := Range(start, end, served);
    var k, r := FirstMatch(entries, fetched), Inserted(entries, fetched);
    InsertedShape(entries, fetched);
    if k < |entries| {
      var e := entries[k];
      var b := Classify(e, start, end);
      JoinedContents(served, e.notes);
      forall i, n | 0 <= i < |r| && n in r[i].notes ensures n in store {
        if i != k {
          assert n in entries[i].notes;
        } else if b != Superset && b != Contained {
          assert n in served || n in e.notes;
        }
      }
      forall i, n | 0 <= i < |r| && n in store && Contains(r[i], n.date) ensures n in r[i].notes {
        if i != k {
          assert Contains(entries[i], n.date);
        } else if b == LeftExtend || b == RightExtend {
          if start <= n.date <= end {
            assert n in served;
          } else {
            assert Contains(e, n.date);
            assert n in e.notes;
          }
        } else if b == Contained {
          assert n in e.notes;
        }
      }
    } else {
      forall i, n | 0 <= i < |r| && n in store && Contains(r[i], n.date) ensures n in r[i].notes {
        if i < |entries| {
          assert Contains(entries[i], n.date);
        }
      }
    }
  }

  /** Merging a fetch without repeated ids keeps every range free of
      repeated ids. */
  lemma InsertKeepsUniqueIds(entries: seq<Range>, fetched: Range)
    requires EachUnique(entries) && UniqueIds(fetched.notes)
    ensures EachUnique(Inserted(entries, fetched))
  {
    var k := FirstMatch(entries, fetched);
    InsertedShape(entries, fetched);
    if k < |entries| {
      JoinedUniqueIds(fetched.notes, entries[k].notes);
    }
  }

  /** When the first range that matches already covers the fetched range,
      `updateCache` changes nothing. */
  lemma ContainedInsertIsNoOp(entries: seq<Range>, fetched: Range)
    requires FirstMatch(entries, fetched) < |entries|
    requires Covers(entries[FirstMatch(entries, fetched)], fetched.start, fetched.end)
    ensures Inserted(entries, fetched) == entries
    ensures FetchedAfter(entries, fetched) == fetched.notes
  {
  }

  /** A fetched range that one range covers can still extend an earlier
      range that it overlaps: the first match wins, not the covering one. */
  lemma CoveredInsertCanExtendEarlierRange()
    ensures var entries, fetched := [Range(9, 12, []), Range(1, 10, [])], Range(5, 8, []);
      Covers(entries[1], 5, 8)
      && Inserted(entries, fetched) == [Range(5, 12, []), Range(1, 10, [])]
  {
    var entries, fetched := [Range(9, 12, []), Range(1, 10, [])], Range(5, 8, []);
    assert Classify(entries[0], 5, 8) == LeftExtend;
    assert FirstMatch(entries, fetched) == 0;
  }

  /** Merging only against the first match can leave overlapping ranges. */
  lemma InsertCanOverlap()
    ensures Inserted(Inserted([Range(1, 10, [])], Range(20, 30, [])), Range(5, 25, []))
      == [Range(1, 25, []), Range(20, 30, [])]
  {
    var one := [Range(1, 10, [])];
    assert Classify(one[0], 20, 30) == NoMatch;
    assert FirstMatch(one, Range(20, 30, [])) == 1;
    var two := Inserted(one, Range(20, 30, []));
    assert two == [Range(1, 10, []), Range(20, 30, [])];
    assert Classify(two[0], 5, 25) == RightExtend;
    assert FirstMatch(two, Range(5, 25, [])) == 0;
  }

  // ---------------------------------------------------------------------
  // updateNote

  /** In a list without repeated ids, `updateNote` leaves the notes with
      other ids alone, puts the new note in place of the old one if there
      was one, and changes nothing otherwise. */
  lemma ReplaceFirstMeaning(notes: seq<Note>, note: Note)
    requires UniqueIds(notes)
    ensures var r := ReplaceFirst(notes, note);
      && |r| == |notes| && UniqueIds(r)
      && (forall n: Note :: n.id != note.id ==> (n in r <==> n in notes))
      && (note.id in Ids(notes) ==> note in r && forall n :: n in r && n.id == note.id ==> n == note)
      && (note.id !in Ids(notes) ==> r == notes)
  {
    var k, r := FirstWithId(notes, note.id), ReplaceFirst(notes, note);
    if k < |notes| {
      assert r[k] == note;
      forall n: Note | n.id != note.id && n in notes ensures n in r {
        var i :| 0 <= i < |notes| && notes[i] == n;
        assert r[i] == n;
      }
      forall n | n in r && n.id == note.id ensures n == note {
        var i :| 0 <= i < |r| && r[i] == n;
      }
    } else {
      forall n | n in notes ensures n.id != note.id {
        var i :| 0 <= i < |notes| && notes[i] == n;
      }
    }
  }

  /** Only the first note with the id is overwritten. */
  lemma ReplaceFirstOnly()
    ensures ReplaceFirst([Note(1, 3, "a"), Note(1, 4, "b")], Note(1, 5, "c"))
      == [Note(1, 5, "c"), Note(1, 4, "b")]
  {
    assert FirstWithId([Note(1, 3, "a"), Note(1, 4, "b")], 1) == 0;
  }

  /** An updated note stays in the range that held it: a lookup of its old
      days no longer returns it, and neither does a lookup of its new days
      answered by another range, although the server now has it there. */
  lemma UpdatedNoteNotRelocated()
    ensures var before := [Range(1, 10, [Note(5, 3, "x")]), Range(20, 30, [])];
      var after := Updated(before, Note(5, 25, "x"));
      && Sound(before, {Note(5, 3, "x")}) && Complete(before, {Note(5, 3, "x")})
      && LookupIn(after, 1, 10) == Some([])
      && LookupIn(after, 20, 30) == Some([])
      && !Complete(after, {Note(5, 25, "x")})
  {
    var before := [Range(1, 10, [Note(5, 3, "x")]), Range(20, 30, [])];
    var after := Updated(before, Note(5, 25, "x"));
    assert FirstWithId(before[0].notes, 5) == 0;
    assert after[0] == Range(1, 10, [Note(5, 25, "x")]);
    assert after[1] == Range(20, 30, []);
    assert Covers(after[0], 1, 10) && FirstCovering(after, 1, 10) == 0;
    assert !Covers(after[0], 20, 30) && Covers(after[1], 20, 30);
    assert FirstCovering(after, 20, 30) == 1;
    assert NotesBetween(after[0].notes, 1, 10) == [];
    assert Contains(after[1], 25) && Note(5, 25, "x") !in after[1].notes;
  }

  /** `updateNote` keeps every range free of repeated ids, and keeps the
      cache sound once the server holds the new version of the note. */
  lemma UpdateKeepsSoundAndUnique(entries: seq<Range>, store: set<Note>, note: Note)
    requires EachUnique(entries) && Sound(entries, store)
    ensures var updated := Updated(entries, note);
      EachUnique(updated)
      && Sound(updated, (set n | n in store && n.id != note.id) + {note})
  {
    forall i | 0 <= i < |entries| {
      ReplaceFirstMeaning(entries[i].notes, note);
    }
  }

  // ---------------------------------------------------------------------
  // deleteNote

  /** Splicing out position `k` shifts every later note down by one. */
  lemma RemoveFirstPositions(notes: seq<Note>, id: int)
    requires FirstWithId(notes, id) < |notes|
    ensures var k, r := FirstWithId(notes, id), RemoveFirst(notes, id);
      |r| == |notes| - 1 && forall i :: 0 <= i < |r| ==> r[i] == notes[if i < k then i else i + 1]
  {
    var k, r := FirstWithId(notes, id), RemoveFirst(notes, id);
    assert r == notes[..k] + notes[k + 1..];
    forall i | 0 <= i < |r| ensures r[i] == notes[if i < k then i else i + 1] {
      if i < k {
        assert r[i] == notes[..k][i];
      } else {
        assert r[i] == notes[k + 1..][i - k];
      }
    }
  }

  /** `deleteNote` on one list: a note goes exactly when one has the id. */
  lemma RemoveFirstMeaning(notes: seq<Note>, id: int)
    ensures id !in Ids(notes) ==> RemoveFirst(notes, id) == notes
    ensures id in Ids(notes) ==> |RemoveFirst(notes, id)| == |notes| - 1
  {
    var k := FirstWithId(notes, id);
    if k < |notes| {
      RemoveFirstPositions(notes, id);
      assert notes[k] in notes;
    } else {
      forall n | n in notes ensures n.id != id {
        var i :| 0 <= i < |notes| && notes[i] == n;
      }
    }
  }

  /** Splicing out the first note with the id repeats no id. */
  lemma RemoveFirstKeepsUnique(notes: seq<Note>, id: int)
    requires UniqueIds(notes)
    ensures UniqueIds(RemoveFirst(notes, id))
  {
    var k, r := FirstWithId(notes, id), RemoveFirst(notes, id);
    if k < |notes| {
      RemoveFirstPositions(notes, id);
      forall i, j | 0 <= i < j < |r| ensures r[i].id != r[j].id {
        var i', j' := if i < k then i else i + 1, if j < k then j else j + 1;
        assert r[i] == notes[i'] && r[j] == notes[j'] && i' < j';
      }
    }
  }

  /** Without repeated ids, `deleteNote` leaves no note with the id and
      keeps every note with another id. */
  lemma RemoveFirstMembers(notes: seq<Note>, id: int)
    requires UniqueIds(notes)
    ensures var r := RemoveFirst(notes, id);
      id !in Ids(r) && forall n: Note :: n.id != id ==> (n in r <==> n in notes)
  {
    var k, r := FirstWithId(notes, id), RemoveFirst(notes, id);
    if k < |notes| {
      RemoveFirstPositions(notes, id);
      forall n | n in r ensures n.id != id && n in notes {
        var i :| 0 <= i < |r| && r[i] == n;
        var i' := if i < k then i else i + 1;
        assert n == notes[i'] && i' != k;
      }
      forall n: Note | n.id != id && n in notes ensures n in r {
        var i :| 0 <= i < |notes| && notes[i] == n;
        assert r[if i < k then i else i - 1] == n;
      }
    } else {
      forall n | n in notes ensures n.id != id {
        var i :| 0 <= i < |notes| && notes[i] == n;
      }
    }
  }

  /** With no repeated ids in a range, deleting twice is deleting once. */
  lemma DeleteIdempotent(entries: seq<Range>, id: int)
    requires EachUnique(entries)
    ensures Deleted(Deleted(entries, id), id) == Deleted(entries, id)
  {
    var once := Deleted(entries, id);
    forall i | 0 <= i < |entries| ensures Deleted(once, id)[i] == once[i] {
      RemoveFirstMembers(entries[i].notes, id);
      RemoveFirstMeaning(once[i].notes, id);
    }
  }

  /** Deleting an id no range holds leaves the cache as it is. */
  lemma DeleteAbsentIsNoOp(entries: seq<Range>, id: int)
    requires forall i :: 0 <= i < |entries| ==> id !in Ids(entries[i].notes)
    ensures Deleted(entries, id) == entries
  {
    forall i | 0 <= i < |entries| ensures Deleted(entries, id)[i] == entries[i] {
      RemoveFirstMeaning(entries[i].notes, id);
    }
  }

  /** Deleting a note from the server and from the cache keeps the cache
      sound and complete. */
  lemma DeleteKeepsStoreView(entries: seq<Range>, store: set<Note>, id: int)
    requires EachUnique(entries) && Sound(entries, store) && Complete(entries, store)
    ensures var rest := set n | n in store && n.id != id;
      Sound(Deleted(entries, id), rest) && Complete(Deleted(entries, id), rest)
      && EachUnique(Deleted(entries, id))
  {
    forall i | 0 <= i < |entries| {
      RemoveFirstKeepsUnique(entries[i].notes, id);
    }
    forall i | 0 <= i < |entries| {
      RemoveFirstMembers(entries[i].notes, id);
    }
  }

  // ---------------------------------------------------------------------
  // addNote

  /** A created note is found by a lookup of its own day when some range
      holds that day; when none does, the cache is unchanged. */
  lemma AddedNoteVisibleOnItsDay(entries: seq<Range>, note: Note)
    ensures Covered(entries, note.date) ==>
      LookupIn(Added(entries, note), note.date, note.date).Some?
      && note in LookupIn(Added(entries, note), note.date, note.date).value
    ensures !Covered(entries, note.date) ==> Added(entries, note) == entries
  {
    var k := FirstContaining(entries, note.date);
    if Covered(entries, note.date) {
      var r := Added(entries, note);
      assert Contains(entries[k], note.date);
      forall j | 0 <= j < k ensures !Covers(r[j], note.date, note.date) {
        assert !Contains(entries[j], note.date);
      }
      assert Covers(r[k], note.date, note.date);
      assert FirstCovering(r, note.date, note.date) == k;
      assert note in r[k].notes;
    }
  }

  /** Creating a note keeps the cache sound and complete when at most one
      range holds the note's day. */
  lemma AddKeepsStoreView(entries: seq<Range>, store: set<Note>, note: Note)
    requires Sound(entries, store) && Complete(entries, store)
    requires forall i, j :: 0 <= i < j < |entries| ==> !(Contains(entries[i], note.date) && Contains(entries[j], note.date))
    ensures Sound(Added(entries, note), store + {note})
    ensures Complete(Added(entries, note), store + {note})
  {
    var k, r := FirstContaining(entries, note.date), Added(entries, note);
    forall i, n | 0 <= i < |r| && n in store + {note} && Contains(r[i], n.date)
      ensures n in r[i].notes
    {
      if n != note {
        assert Contains(entries[i], n.date);
      }
    }
  }

  /** A note created on a day two ranges share goes to the first only, so a
      lookup answered by the second misses it; `InsertCanOverlap` shows such
      ranges arise. */
  lemma AddedToOverlapIsStale()
    ensures var after := Added([Range(1, 25, []), Range(20, 30, [])], Note(7, 22, "x"));
      after == [Range(1, 25, [Note(7, 22, "x")]), Range(20, 30, [])]
      && LookupIn(after, 21, 29) == Some([])
  {
    var before := [Range(1, 25, []), Range(20, 30, [])];
    assert Contains(before[0], 22);
    assert FirstContaining(before, 22) == 0;
    var after := Added(before, Note(7, 22, "x"));
    assert [] + [Note(7, 22, "x")] == [Note(7, 22, "x")];
    assert |after| == 2 && after[0] == Range(1, 25, [Note(7, 22, "x")]) && after[1] == before[1];
    assert !Covers(after[0], 21, 29) && Covers(after[1], 21, 29);
    assert FirstCovering(after, 21, 29) == 1;
    assert after[1].notes == [];
  }

  /** Creating a note whose id no range holds keeps every range free of
      repeated ids. */
  lemma AddKeepsUniqueIds(entries: seq<Range>, note: Note)
    requires EachUnique(entries)
    requires forall i :: 0 <= i < |entries| ==> note.id !in Ids(entries[i].notes)
    ensures EachUnique(Added(entries, note))
  {
    var k := FirstContaining(entries, note.date);
    if k < |entries| {
      UniqueAppend(entries[k].notes, note);
    }
  }

  // ---------------------------------------------------------------------
  // Scenarios

  /** An empty cache misses; after storing the fetch, a one-day lookup
      inside it answers from the cache. */
  lemma ScenarioFetchThenHit()
    ensures LookupIn([], 1, 31) == None
    ensures LookupIn(Inserted([], Range(1, 31, [Note(1, 5, "x")])), 5, 5) == Some([Note(1, 5, "x")])
  {
    var r := Inserted([], Range(1, 31, [Note(1, 5, "x")]));
    assert r == [Range(1, 31, [Note(1, 5, "x")])];
    assert Covers(r[0], 5, 5);
    assert FirstCovering(r, 5, 5) == 0;
    var notes := [Note(1, 5, "x")];
    assert notes[..0] == [];
    assert NotesBetween(notes, 5, 5) == NotesBetween([], 5, 5) + [Note(1, 5, "x")];
    assert NotesBetween(notes, 5, 5) == notes;
    assert LookupIn(r, 5, 5) == Some(notes);
  }

  /** An overlapping fetch extends the range to the right; the fetched
      notes come first in the merged list. */
  lemma ScenarioRightExtend()
    ensures Inserted([Range(1, 10, [Note(1, 3, "a")])], Range(8, 20, [Note(2, 15, "b")]))
      == [Range(1, 20, [Note(2, 15, "b"), Note(1, 3, "a")])]
  {
    var e, f := Range(1, 10, [Note(1, 3, "a")]), Range(8, 20, [Note(2, 15, "b")]);
    assert Classify(e, 8, 20) == RightExtend;
    assert FirstMatch([e], f) == 0;
    assert Ids(f.notes) == {2} by { assert f.notes[0] in f.notes; }
    assert e.notes[..0] == [];
    assert Unseen(e.notes, {2}) == Unseen([], {2}) + [Note(1, 3, "a")];
    assert Joined(f.notes, e.notes) == [Note(2, 15, "b"), Note(1, 3, "a")];
    assert Merged(e, f) == Range(1, 20, [Note(2, 15, "b"), Note(1, 3, "a")]);
  }

  /** A fetch reaching past a cached range on both sides replaces it with
      the fetched notes alone: a cached note the fetch did not return is
      gone, and a lookup of its day finds nothing. */
  lemma ScenarioSupersetDropsOldNotes()
    ensures var after := Inserted([Range(5, 10, [Note(1, 7, "a")])], Range(1, 20, [Note(2, 15, "b")]));
      after == [Range(1, 20, [Note(2, 15, "b")])]
      && LookupIn(after, 7, 7) == Some([])
  {
    var before, fetched := [Range(5, 10, [Note(1, 7, "a")])], Range(1, 20, [Note(2, 15, "b")]);
    assert Classify(before[0], 1, 20) == Superset;
    assert FirstMatch(before, fetched) == 0;
    var after := Inserted(before, fetched);
    assert after == [fetched];
    assert Covers(after[0], 7, 7) && FirstCovering(after, 7, 7) == 0;
    assert NotesBetween(fetched.notes, 7, 7) == [];
  }
}
