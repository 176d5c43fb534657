# Note calendar: the client-side range cache and date helpers

The calendar web client keeps its notes in a small in-memory cache, `clientData`. The cache is an ordered list of date ranges. Each range holds the notes the server returned for that range. This project models that cache and the date helpers it is built on:

- **Reading.** A read of the days `start..end` is answered from the first cached range that covers the whole request. The answer is that range's notes dated inside the request, with both ends included. A miss goes to the server, and the answer is merged into the list by `updateCache`. That merge is first-match: the fetched range left-extends, right-extends, replaces (superset) or is already contained in the first cached range it matches; with no match it is appended. Extending merges the two note lists with `joinData`: the fetched notes come first and win on an id collision.
- **Writing.** Creating, updating and deleting a note edit the cached lists in place. An update overwrites the first note with the id in every range. A delete splices out the first note with the id in every range. A created note is pushed onto the first range whose days include its date.
- **Dates** (`utils.ts`): month names, `lastSunday` and `nextSaturday`, `isSameDay`, and the `Y-MM-DD` text sent to the server.

Modules:

- `Wrappers` (`wrappers.dfy`): the `Option` type.
- `Calendar` (`calendar.dfy`): local dates as `getFullYear()`, `getMonth()` and `getDate()`. It includes the day arithmetic of `setDate` and of `new Date(y, m, x)`, which reads a year from 0 to 99 as 1900 to 1999, the weekday `getDay()`, `datePlusOne`, `dateMinusOne`, `lastSunday`, `nextSaturday` and `isSameDay`. It proves that a date's day number (days since 1970-01-01) orders dates as JavaScript compares them, and that `isSameDay` is equality of day numbers. So `isSameDay` is an equivalence relation.
- `DateText` (`date_text.dfy`): `monthToString` and `toYearMonthDay`. A parser of the `Y-MM-DD` form serves as the round-trip partner.
- `NoteCache` (`note_cache.dfy`): the cache.
  - Notes and ranges are datatypes, and days are day numbers. The `Calendar` lemmas justify this: `<`, `<=` and `isSameDay` on dates become integer comparisons, and `datePlusOne`/`dateMinusOne` become `+ 1`/`- 1` for every year outside 0..99 (see "## Left out" for those years).
  - Each operation has a specification function: `LookupIn`, `Inserted`, `FetchedAfter`, `Updated`, `Deleted`, `Added`.
  - `clientData` is the `seq<Range>` field of the class `Cache`. Its methods are the source's loops, and each is proved to compute its specification function.
- `CacheProperties` (`cache_properties.dfy`): what the specification functions promise, proved as lemmas. This covers the shape of every merge branch, coverage, lookup meaning, id uniqueness and consistency with the server's notes. It also proves concrete scenarios and the cache's known staleness behaviours.

## Model

| member | source | states |
|---|---|---|
| Calendar.MakeDate | frontend/src/utils.ts:22 | `setDate(x)`: a valid date `x - 1` days after the first of the month, in the date's own year even from 0 to 99; a day inside the month is that date itself |
| Calendar.DatePlusOne | frontend/src/lib.ts:29-31 | for a year outside 0..99, the next calendar day (day number one more); for a year `y` from 0 to 99, the day after the same day of 1900 + `y`, and March 2, 1900 for February 29 of the year 0 |
| Calendar.DateMinusOne | frontend/src/lib.ts:33-35 | for a year outside 0..99, the previous calendar day (day number one less); for a year `y` from 0 to 99, the day before the same day of 1900 + `y`, and February 28, 1900 for February 29 of the year 0 |
| Calendar.Weekday | frontend/src/utils.ts:21 | `getDay()` is always 0..6 |
| Calendar.LastSunday | frontend/src/utils.ts:19-24 | the result is a valid Sunday exactly `getDay(d)` days before `d`; `d` is a value and is not changed |
| Calendar.NextSaturday | frontend/src/utils.ts:26-31 | the result is a valid Saturday exactly `6 - getDay(d)` days after `d` |
| Calendar.WeekAroundDate | frontend/src/utils.ts:19-31 | `lastSunday(d) <= d <= nextSaturday(d)`, each at most 6 days from `d`, and the two are exactly 6 days apart |
| Calendar.LastSundayUnique | frontend/src/utils.ts:19-24 | any Sunday among the six days up to `d` is the same day as `lastSunday(d)` |
| Calendar.NextSaturdayUnique | frontend/src/utils.ts:26-31 | any Saturday among the six days from `d` is the same day as `nextSaturday(d)` |
| Calendar.DayNumberOrder | frontend/src/lib.ts:43-45 | a smaller day number means an earlier date by year, then month, then day; this is the order the cache's date comparisons use |
| Calendar.IsSameDay | frontend/src/utils.ts:33-39 | equal years, months and days is equality of dates, so `isSameDay` is reflexive, symmetric and transitive |
| Calendar.SameDayIffSameDayNumber | frontend/src/utils.ts:33-39 | `isSameDay(a, b)` holds iff `a` and `b` have the same day number, in both directions |
| DateText.MonthToString | frontend/src/utils.ts:1-17 | months 1..12 give the month's English name; any other number gives "Invalid month" |
| DateText.MonthNamesDistinct | frontend/src/utils.ts:1-17 | the result is "Invalid month" exactly outside 1..12, and different months have different names |
| DateText.TwoDigitsIsPadded | frontend/src/utils.ts:43-44 | for 0..99, the two-digit field equals `toString().padStart(2, "0")` |
| DateText.TwoDigitsValue | frontend/src/utils.ts:43-44 | a two-digit field reads back as the number it was made from |
| DateText.ToYearMonthDay | frontend/src/utils.ts:41-45 | the text is the year's text plus six characters (`-MM-DD`) |
| DateText.IntToStringParses | frontend/src/utils.ts:42 | the year text, with `-` for negative years, reads back as the year |
| DateText.Layout | frontend/src/utils.ts:41-45 | the text is the year, `-`, the two month digits, `-`, the two day digits, at those positions |
| DateText.ParseToYearMonthDay | frontend/src/utils.ts:41-45 | round trip: parsing `toYearMonthDay(d)` gives back `d` |
| DateText.ToYearMonthDayFields | frontend/src/utils.ts:43-44 | the month field is one of "01".."12" and reads as `getMonth() + 1`; the day field reads as `getDate()` |
| DateText.ToYearMonthDayInjective | frontend/src/utils.ts:33-45 | two valid dates have the same `toYearMonthDay` text iff `isSameDay` holds of them |
| NoteCache.FirstIndex | frontend/src/lib.ts:40-75 | the first-match scan all the cache's loops share: the index found satisfies the test and none before it does, or no element does |
| NoteCache.UnseenMembers | frontend/src/lib.ts:20-25 | the notes `joinData` appends are exactly the notes of `data2` whose id was not in `data1` on entry |
| NoteCache.JoinData | frontend/src/lib.ts:19-27 | the loop leaves `data1` followed by, in order, the notes of `data2` whose ids were not in `data1` on entry |
| NoteCache.NotesBetween | frontend/src/lib.ts:86-90 | the lookup filter keeps a note iff its day is from `start` to `end`, both ends included |
| NoteCache.Classify | frontend/src/lib.ts:42-74 | with ordered bounds, no branch applies iff the fetched range ends two or more days before the cached range starts, or starts after it ends; the already-contained branch applies iff the cached range covers the fetched range |
| NoteCache.ReplaceFirstIn | frontend/src/lib.ts:114-119 | the inner loop of `updateNote` overwrites the first note with the id and only that one |
| NoteCache.RemoveFirstIn | frontend/src/lib.ts:160-165 | the inner loop of `deleteNote` splices out the first note with the id and only that one |
| NoteCache.Cache.constructor | frontend/src/lib.ts:17 | the cache starts empty |
| NoteCache.Cache.Lookup | frontend/src/lib.ts:84-92 | the scan returns the answer of the first range covering the request, or a miss, and changes nothing |
| NoteCache.Cache.UpdateCache | frontend/src/lib.ts:37-77 | the new cache is the first-match merge of the fetched range; the fetched array the caller holds is the merged list after an extend |
| NoteCache.Cache.GetNoteData | frontend/src/lib.ts:79-110 | a hit returns the cached answer and leaves the cache unchanged; a miss stores the served notes with `updateCache` and returns the fetched array as it stands afterwards |
| NoteCache.Cache.UpdateNote | frontend/src/lib.ts:112-120 | in every range, the first note with the id is replaced and nothing else changes |
| NoteCache.Cache.AddNote | frontend/src/lib.ts:147-155 | the note is pushed onto the first range containing its date, or the cache is unchanged |
| NoteCache.Cache.DeleteNote | frontend/src/lib.ts:158-166 | in every range, the first note with the id is spliced out and nothing else changes |
| CacheProperties.UniqueAppend | frontend/src/lib.ts:22-23 | pushing a note whose id is new keeps the ids distinct |
| CacheProperties.UniqueConcat | frontend/src/lib.ts:19-27 | two lists with distinct ids and no shared id concatenate to a list with distinct ids |
| CacheProperties.UnseenUnique | frontend/src/lib.ts:21-25 | filtering out seen ids keeps a list's ids distinct |
| CacheProperties.JoinedContents | frontend/src/lib.ts:19-27 | `data1` is a prefix of the result; a note is in the result iff it is in `data1` or is a `data2` note with a new id; on an id collision the `data1` note wins; the ids are the union |
| CacheProperties.JoinedUniqueIds | frontend/src/lib.ts:19-27 | joining two lists with distinct ids gives a list with distinct ids |
| CacheProperties.LookupMeaning | frontend/src/lib.ts:84-92 | a miss happens iff no single range covers the request; a hit answers from the first covering range, filtered by day |
| CacheProperties.LookupAnswersFromStore | frontend/src/lib.ts:84-92 | when the cache holds only server notes and every one dated in each range, a hit returns exactly the server notes dated from `start` to `end` |
| CacheProperties.LookupMissesAcrossRanges | frontend/src/lib.ts:84-93 | ranges 1..10 and 11..20 together cover 5..15, yet a lookup of 5..15 misses |
| CacheProperties.InsertedShape | frontend/src/lib.ts:40-76 | `updateCache` changes at most the first matching range, never removes one, and appends the fetched range exactly when none matches |
| CacheProperties.MergedCoverage | frontend/src/lib.ts:42-74 | every merge branch spans exactly the days of the old range and of the fetched range |
| CacheProperties.InsertedCoverage | frontend/src/lib.ts:37-77 | after `updateCache`, a day is cached iff it was cached before or is in the fetched range |
| CacheProperties.AbuttingAsymmetry | frontend/src/lib.ts:42-62 | a range starting the day after a cached range ends is not merged with it, while one ending the day before it starts is left-extended |
| CacheProperties.MissThenInsertHits | frontend/src/lib.ts:84-109 | after a miss and `updateCache`, the same request hits and returns the fetched array's notes dated in the request |
| CacheProperties.InsertKeepsStoreView | frontend/src/lib.ts:37-77 | merging an exact fetch keeps the cache sound (only server notes) and complete (every server note dated in a range is in it) |
| CacheProperties.InsertKeepsUniqueIds | frontend/src/lib.ts:37-77 | merging a fetch with distinct ids keeps every range's ids distinct |
| CacheProperties.ContainedInsertIsNoOp | frontend/src/lib.ts:72-74 | when the first match already covers the fetched range, the cache and the fetched array are unchanged |
| CacheProperties.CoveredInsertCanExtendEarlierRange | frontend/src/lib.ts:40-75 | a fetched range covered by the second range still extends the first range when that one matches first |
| CacheProperties.InsertCanOverlap | frontend/src/lib.ts:40-76 | first-match merging can leave two overlapping ranges |
| CacheProperties.ReplaceFirstMeaning | frontend/src/lib.ts:114-119 | with distinct ids, the length is kept, the notes with other ids are kept, the note with the id becomes the new note, and an absent id changes nothing |
| CacheProperties.ReplaceFirstOnly | frontend/src/lib.ts:114-119 | with two notes of the same id, only the first is overwritten |
| CacheProperties.UpdatedNoteNotRelocated | frontend/src/lib.ts:112-120 | a note moved to another day stays in its range: lookups of the old range no longer show it, and the range holding the new day lacks it, so the cache is no longer complete |
| CacheProperties.UpdateKeepsSoundAndUnique | frontend/src/lib.ts:112-120 | `updateNote` keeps ids distinct and keeps the cache's notes among the server's once the server holds the new note |
| CacheProperties.RemoveFirstPositions | frontend/src/lib.ts:160-165 | splicing out the first match shifts the later notes down by one and keeps their order |
| CacheProperties.RemoveFirstMeaning | frontend/src/lib.ts:160-165 | an absent id changes nothing; a present id removes exactly one note |
| CacheProperties.RemoveFirstKeepsUnique | frontend/src/lib.ts:162 | splicing out a note keeps the ids distinct |
| CacheProperties.RemoveFirstMembers | frontend/src/lib.ts:160-165 | with distinct ids, no note with the id remains and the other notes are kept |
| CacheProperties.DeleteIdempotent | frontend/src/lib.ts:158-166 | deleting an id twice is the same as deleting it once |
| CacheProperties.DeleteAbsentIsNoOp | frontend/src/lib.ts:158-166 | deleting an id no range holds leaves the cache unchanged |
| CacheProperties.DeleteKeepsStoreView | frontend/src/lib.ts:158-166 | deleting from the server and from the cache keeps the cache sound and complete |
| CacheProperties.AddedNoteVisibleOnItsDay | frontend/src/lib.ts:147-155 | if some range contains the date, a lookup of that day then includes the new note; otherwise the cache is unchanged |
| CacheProperties.AddKeepsStoreView | frontend/src/lib.ts:147-155 | when no two ranges share the note's day, creating it keeps the cache sound and complete for the server's notes plus the new one |
| CacheProperties.AddedToOverlapIsStale | frontend/src/lib.ts:147-155 | a note created on a day two ranges share goes only into the first, so a lookup answered by the second does not see it |
| CacheProperties.AddKeepsUniqueIds | frontend/src/lib.ts:147-155 | creating a note with a fresh id keeps every range's ids distinct |
| CacheProperties.ScenarioFetchThenHit | frontend/src/lib.ts:79-110 | an empty cache misses on 1..31; after storing the fetch, a one-day lookup hits with the note of that day |
| CacheProperties.ScenarioRightExtend | frontend/src/lib.ts:53-62 | range 1..10 with one note, then fetched 8..20 with one note, gives one range 1..20 with the fetched note first |
| CacheProperties.ScenarioSupersetDropsOldNotes | frontend/src/lib.ts:63-71 | fetching 1..20 over a cached 5..10 leaves one range 1..20 with the fetched notes only; the cached note on day 7 is gone and a lookup of day 7 finds nothing |

## Left out

- **Network and JSON.** The HTTP requests of `getNoteData`, `updateNote`, `addNote` and `deleteNote` are not modelled, nor `createGuest` and the JSON decoding (frontend/src/lib.ts:94-107, 121-130, 134-145, 167-184). The server's answer enters `GetNoteData` as the parameter `served`, and the server-assigned id enters `AddNote` as `id`. The guest id only selects data on the server, so it is left out. The failure of a request is not modelled.
- **Asynchrony.** `updateNote` and `deleteNote` edit the cache before their request, and `addNote` after it. Each cache edit is modelled as one atomic step, and interleavings with other operations are not modelled.
- **Aliasing of note arrays.** The cache stores the fetched array itself, and `joinData` pushes into it. So the array returned to the caller and the cached one are the same object, and later in-place edits show through both. The model captures the one consequence visible to `getNoteData`: the returned array is the merged list after an extend (`FetchedAfter`). The later sharing is not modelled.
- **Time of day and time zones.** A date is a whole local day. JavaScript compares full time values. `new Date("YYYY-MM-DD")` on a fetched note is UTC midnight, which is the previous local day west of UTC. Week views may also pass start dates that carry a time of day. None of this is modelled.
- NoteCache.Classify: the merge tests use `e.start - 1` and `e.end + 1`, which is what `dateMinusOne`/`datePlusOne` give for years outside 0..99 only. For a cached range bordering on a year from 0 to 99, the source compares with a date 1900 years later (frontend/src/lib.ts:44, 55). For example, a fetch of 0050-07-01..0050-07-31 then right-extends a cached 0050-06-10..0050-06-20 over days it never fetched. The cache model does not capture this. What `InsertedCoverage` and the other updateCache lemmas say about the source therefore holds only while no cached range borders on a year from 0 to 99.
- NoteCache.Cache.UpdateCache: the same restriction to years outside 0..99 applies, as it runs the tests of `Classify`.
- **Invalid dates and date range.** Dates outside JavaScript's time-value range and NaN dates are not modelled; years are unbounded integers.
- **Fractional months.** `monthToString` is modelled on integers. A fractional or non-numeric argument also gives "Invalid month" in the source.
- **Behaviours of the code that are easy to miss** (modelled as written):
  - a fetched range starting the day after a cached range ends is not right-extended (frontend/src/lib.ts:55), although left-abutting ranges are merged;
  - `updateNote` replaces only the first matching note of each range (frontend/src/lib.ts:117);
  - a merged range lists the fetched notes first, then the cached notes with new ids (frontend/src/lib.ts:50, 60).
