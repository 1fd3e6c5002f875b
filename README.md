# ActivityStream in Dafny

A model of the core of ActivityStream ("Acts"), a small to-do tool written in Go.
Activities are stored in an append-only log file: every change appends one line
`[logtime] CMD: (id) YYYY-MM-DD HH:MM body`. The id is the SHA-1 digest of the
activity's canonical text `YYYY-MM-DD HH:MM body`. Two readers interpret the log:

- `GetAll` replays it into a map, where `ADD` inserts or overwrites and `DELETE` removes.
- `FindActivity` resolves an id prefix. It drops every record whose id has a
  `DELETE` anywhere among the matching records.

The use cases sit on top of the store:

- add an item;
- list the activities that are due;
- mark one done (a `DELETE`);
- delay one (a `DELETE` and then an `ADD` at the moved time).

The single-file predecessor `activity.go` is modelled too. It reads activities
line by line from a reader, orders them by timestamp alone and renders them.

Modules, one per concern:

- `Basics`: `Option` and `Result`.
- `Strings`: `strings.Index`, the `[^c]*` and `[0-9a-f]+` spans, Go's string order.
- `Sequences`: filtering, the reversed-concatenation buffer loops and the
  "trim after the last match" scan, each stated once for any element type.
- `Sorting`: the `sort.Sort` contract, as an in-place insertion sort on an array.
- `Calendar`: wall-clock timestamps, the layouts `2006-01-02 15:04` and
  `2006-01-02T15:04:05`, `Before`, `AddDate` and `Add`.
- `Entities`: `entities/activities.go`.
- `Legacy`: `activity.go`.
- `LogFormat`: one log record, its rendering, and the line pattern of
  `ParseLogLine`. The pattern is written out as a parser.
- `LogStorage`: the replay and prefix-resolution specifications, and the class
  `Logfile`. Its field `lines` is the file; `AddNew` and `Delete` append to it.
- `UseCases`: `usecases/*.go`, run against a `Logfile`. Its ghost `calls`
  trace records which store operations each use case made, in order.

Behaviour of the code that the model reproduces rather than corrects:

- The log time is almost never read back. `ParseLogLine` passes the layout and the
  value to `time.Parse` the wrong way round, so the log time text is used as a
  layout for the fixed text `2006-01-02T15:04:05`. A record written at that very
  instant reads back as it; every record written from 2007 on carries Go's zero
  time (`LogFormat.ParseLogLine`, `LogFormat.ParseLogText`).
- The recurrence tag is never written, because the log holds `String()`, which omits
  it. An activity read back has an empty tag, and its id is the digest's first
  three characters (`LogStorage.ReadBack`). This holds for bodies that do not
  themselves start with `@rtask` and have a later space.
- A body that does start with `@rtask` and has a later space (such as the body
  `@rtask:b x` that the input `2024-06-01 10:00 @rtask:a @rtask:b x` produces) is
  split again when its line is read back. The activity read back has a shorter
  body and another canonical form (`LogFormat.ParseLogTextSplit`). `FindActivity`
  returns that activity, so marking it done writes a `DELETE` under another digest.
  Unless the digests collide, the added activity stays live and can never be marked
  done (`LogStorage.SplitBodyOutlivesDelete`).
- One line of the file that the pattern does not match, such as a blank line,
  decodes with the empty id. `FindActivity` slices every id to the query's length,
  so from then on every `done` or `delay` with a non-empty id panics
  (`LogStorage.UnmatchedLineBreaksLongIds`).
- An id that was added, deleted and added again is live for `GetAll`.
  `FindActivity` never returns it, so it can be neither marked done nor delayed
  (`LogStorage.ReAddedIsHiddenFromFind`).
- An id added twice is one entry for `GetAll` but two matches for
  `FindActivity`, which the use cases report as ambiguous
  (`LogStorage.DoubleAddIsAmbiguous`).
- `GetActivity` keeps activities due exactly at `now`, whereas `onlyThoseBefore`
  keeps only those strictly before the cutoff.

## Model

| member | source | states |
|---|---|---|
| Strings.IndexOf | entities/activities.go:70 | `strings.Index` with a one-character needle: -1 exactly when the character is absent, otherwise the position of its first occurrence |
| Strings.SpanWithout | boundaries/logstorage.go:49 | the greedy `[^:]+` and `.*` spans: the longest prefix free of the character, stopped by that character or by the end |
| Strings.HexSpan | boundaries/logstorage.go:49 | the greedy `[0-9a-f]+` span: all of its characters are lower-case hex, and the next one is not |
| Strings.LexLessIrreflexive | entities/activities.go:129 | Go's `<` on strings is irreflexive |
| Strings.LexLessTransitive | entities/activities.go:129 | Go's `<` on strings is transitive |
| Strings.LexLessTotal | entities/activities.go:129 | two different strings are ordered one way or the other |
| Calendar.YearText | entities/activities.go:41-43 | the "2006" field is exactly four characters for the years 0-9999 and longer otherwise |
| Calendar.Format | entities/activities.go:41-43 | `Format("2006-01-02 15:04")` is sixteen characters exactly for four-digit years |
| Calendar.Parse | entities/activities.go:62 | `ParseInLocation` accepts only sixteen characters of the `\d{4}-\d{2}-\d{2} \d{2}:\d{2}` shape, or that shape with a second space in place of the hour's leading digit, naming an existing minute |
| Calendar.ParseShortHour | entities/activities.go:62 | a one-digit hour after two spaces is accepted and names the same minute as the padded text |
| Calendar.ParseFormat | entities/activities.go:41-43 | parsing the formatted text of a four-digit-year timestamp gives back that timestamp |
| Calendar.FormatParse | entities/activities.go:62 | every accepted text formats back as itself, with a one-digit hour padded by a zero, so the two are inverse |
| Calendar.Fixed2Parse | entities/activities.go:42 | a two-digit field reads back as its value |
| Calendar.Fixed4Parse | entities/activities.go:42 | a four-digit year reads back as its value |
| Calendar.Num2Format | entities/activities.go:62 | two parsed digits format back to the same text |
| Calendar.Num4Format | entities/activities.go:62 | four parsed digits format back to the same text |
| Calendar.BeforeIsFieldOrder | entities/activities.go:123-126 | `Before` on wall-clock timestamps is the lexicographic order of their fields, year first |
| Calendar.FieldsBeforeImpliesBefore | entities/activities.go:123 | a timestamp whose fields come first denotes an earlier minute |
| Calendar.DaysBeforeYearMonotone | usecases/delay_activity.go:75 | a later year starts after the whole of every earlier year |
| Calendar.DaysBeforeMonthMonotone | usecases/delay_activity.go:75 | a later month starts after the whole of every earlier month of the year |
| Calendar.DayOfYearBounds | usecases/delay_activity.go:75 | every date's day number lies within its year |
| Calendar.DaysBeforeNextMonth | usecases/delay_activity.go:75 | a month's first day plus its length is the next month's first day |
| Calendar.DaysBeforeNextYear | usecases/delay_activity.go:75 | a year's first day plus its length is the next year's first day |
| Calendar.NextDay | usecases/delay_activity.go:81 | the next calendar day is one day number later, at the same time of day |
| Calendar.PrevDay | usecases/delay_activity.go:81 | the previous calendar day is one day number earlier, at the same time of day |
| Calendar.AddDays | usecases/delay_activity.go:78-81 | `AddDate(0, 0, n)` moves the day number by `n` and keeps the time of day |
| Calendar.AddDaysWithinMonth | usecases/delay_activity.go:81 | a move that stays within the month only changes the day field |
| Calendar.FirstOfMonthAfter | usecases/delay_activity.go:75 | the first of the month `n` months later, counted in months since year 0 |
| Calendar.AddMonths | usecases/delay_activity.go:75 | `AddDate(0, n, 0)` keeps the day of the month when it exists and otherwise overflows into the next month |
| Calendar.AddMinutes | usecases/delay_activity.go:83-88 | `Add(n * time.Minute)` moves the absolute minute by `n` |
| Calendar.ClockTextShape | boundaries/logstorage.go:41 | the log time of a four-digit year has the `\d{4}-\d{2}-\d{2}T\d{2}:\d{2}:\d{2}` shape the pattern expects |
| Calendar.ClockShapeOfParts | boundaries/logstorage.go:41 | digit fields joined by the layout's separators have the log-time shape |
| Calendar.Fixed2Digits | boundaries/logstorage.go:41 | a two-digit field is two decimal digits |
| Calendar.ReferenceText | boundaries/logstorage.go:33 | Go's reference instant is written as the layout text `2006-01-02T15:04:05` |
| Calendar.ClockTextIsLayout | boundaries/logstorage.go:41 | a log time is written as the layout text exactly when it is the reference instant |
| Calendar.LayoutParts | boundaries/logstorage.go:41 | the fields of a log time written as the layout text are the layout's own fields |
| Calendar.Decimal | entities/activities.go:42 | a number prints with at least one digit, and with at least k+1 digits once it reaches 10^k (k up to 4) |
| Sequences.TrimAfterLast | entities/activities.go:94-101 | the scan from the end returns a prefix whose last element passes the test; no element after it passes |
| Sequences.WriteReversed | entities/activities.go:105-111 | the buffer loop writes every element's rendering, last element first |
| Sequences.ConcatReversedAppend | entities/activities.go:107-109 | the reversed rendering of a concatenation emits its second part first |
| Sequences.ConcatReversedLastFirst | entities/activities.go:107-109 | the last element is emitted first, then the rest |
| Sequences.ConcatSnoc | usecases/delay_activity.go:46-49 | one more step of the forward buffer loop appends one rendering |
| Sequences.ConcatAppend | usecases/delay_activity.go:46-49 | the forward rendering of a concatenation is the two renderings in order |
| Sequences.ConcatContains | usecases/delay_activity.go:46-49 | each element's rendering occurs in the forward rendering, after those of the elements before it |
| Sequences.FramedConcatContains | usecases/delay_activity.go:44-51 | each match's line occurs in the ambiguity message, between the header and the trailer |
| Sequences.MiddleSlice | usecases/delay_activity.go:44-51 | a slice of the middle part of a concatenation is a slice of that part |
| Sequences.Filter | boundaries/logstorage.go:152-156 | the appended elements are exactly the elements that pass the test, and no more than the input |
| Sequences.FilterSnoc | boundaries/logstorage.go:153-155 | one more loop step appends the element exactly when it passes |
| Sequences.FilterAppend | boundaries/logstorage.go:152-156 | filtering a concatenation is filtering each part |
| Sequences.FilterSingle | boundaries/logstorage.go:153-155 | one element is kept exactly when it passes |
| Sequences.FilterNone | boundaries/logstorage.go:152-156 | nothing is kept when no element passes |
| Sequences.FilterAll | boundaries/logstorage.go:152-156 | everything is kept, in order, when every element passes |
| Sequences.FilterFilter | boundaries/logstorage.go:132-156 | filtering by prefix and then by the deleted list is filtering once by both tests |
| Sequences.DistinctCardinality | boundaries/logstorage.go:121-123 | listing each key of a map once gives as many entries as the map has keys |
| Sorting.InsertionSort | entities/activities.go:114-116 | after sorting by a strict weak order the array is sorted and a permutation of what it held |
| Sorting.Insert | entities/activities.go:114-129 | moving one element left by adjacent swaps extends the sorted prefix by one, keeping the elements and leaving everything after it in place |
| Sorting.SwapKeepsSortedExcept | entities/activities.go:121 | swapping the out-of-place element with its greater neighbour moves the gap one place left |
| Sorting.SortedExceptDone | entities/activities.go:121 | once the out-of-place element is not less than its left neighbour, the prefix is sorted |
| Entities.IndexedStringShape | entities/activities.go:24-30 | the listing form is the bold id, a star exactly when the activity has a tag, a space and the canonical form |
| Entities.ParseOneActivity | entities/activities.go:60-87 | fails exactly when `input[0:16]` is not a timestamp (a one-digit hour after two spaces is one); the id is empty; with the marker and a later space the tag runs from 24 to the first space and the body follows it; otherwise the tag is empty and the body is `input[17:]` |
| Entities.ParseShortHourActivity | entities/activities.go:60-62 | a line whose hour is written as one digit after two spaces parses to the same timestamp and body |
| Entities.ParseString | entities/activities.go:32-34 | parsing the canonical form recovers the timestamp and the body, with no tag and no id |
| Entities.ParseSplitString | entities/activities.go:66-74 | the canonical form of an activity whose body starts with the marker and has a later space parses to the same timestamp but a shorter body, a suffix of the original, so another canonical form |
| Entities.StringDeterminesFields | entities/activities.go:32-34 | equal canonical forms come from equal timestamps and bodies, so the digest input names `(timestamp, body)` |
| Entities.FullStringDeterminesFields | entities/activities.go:45-47 | with a tag free of spaces, the full form determines timestamp, tag and body |
| Entities.SplitAtFirstSpace | entities/activities.go:45-47 | a space-free word followed by a space is recovered from the joined text |
| Entities.SameInstant | entities/activities.go:123-128 | timestamps neither before the other are equal |
| Entities.LessTies | entities/activities.go:122-130 | two activities are unordered by `Less` exactly when timestamp and body agree |
| Entities.LessIsStrictWeakOrder | entities/activities.go:122-130 | `Less` is irreflexive, transitive and a strict weak order |
| Entities.Sort | entities/activities.go:114-116 | the slice ends sorted by `Less` and is a permutation of what it held |
| Entities.OnlyThoseBefore | entities/activities.go:94-101 | a prefix whose last element is strictly before the cutoff, with no later element before it; empty when none is |
| Entities.OnlyThoseBeforeSorted | entities/activities.go:91-101 | on a timestamp-ordered list it keeps exactly the activities strictly before the cutoff |
| Entities.ListString | entities/activities.go:105-111 | the canonical forms, last activity first |
| Legacy.ParseOneActivity | activity.go:53-79 | the same fixed-width split as the entity parser, without an id, with the same timestamp parse (a one-digit hour after two spaces included) |
| Legacy.ParseString | activity.go:93-95 | reading back the two-space rendering keeps the timestamp, never splits off a tag, and the body gains a leading space |
| Legacy.CompleteLinesShape | activity.go:29-33 | every line `ReadString('\n')` returns without error ends with its only newline |
| Legacy.CompleteLinesJoin | activity.go:29-33 | the lines read are a prefix of the input, and what follows them holds no newline |
| Legacy.CompleteLinesDropPartial | activity.go:30-32 | text after the last newline never yields a line |
| Legacy.CompleteLinesAt | activity.go:30 | the first line read ends at the first newline |
| Legacy.CompleteLinesFirst | activity.go:30 | extending the input after its first newline does not change the first line |
| Legacy.ParsedActivitiesAppend | activity.go:34-37 | reading two blocks of lines yields the activities of the first block, then those of the second |
| Legacy.ParsedActivitiesSingle | activity.go:34-37 | one line yields its activity exactly when it parses |
| Legacy.ConsSliceSafe | activity.go:34 | every line of a safe block is safe |
| Legacy.ReadStep | activity.go:29-37 | one turn of the read loop: the first line's activity, then those of the remaining lines |
| Legacy.BufferedReaderToActivities | activity.go:27-40 | the activities of exactly the newline-terminated lines that parse, in input order |
| Legacy.LessTies | activity.go:116 | the legacy `Less` leaves activities unordered exactly when their timestamps are equal, whatever their bodies |
| Legacy.LessIsStrictWeakOrder | activity.go:116 | the legacy `Less` is a strict weak order |
| Legacy.Sort | activity.go:108-110 | the slice ends ordered by timestamp and is a permutation of what it held |
| Legacy.OnlyThoseBefore | activity.go:84-91 | the prefix ending at the last activity strictly before the cutoff, or empty |
| Legacy.OnlyThoseBeforeSorted | activity.go:81-91 | after the legacy sort, it keeps exactly the activities strictly before the cutoff |
| Legacy.ListString | activity.go:99-105 | the two-space renderings, last activity first |
| LogFormat.ShortString | boundaries/logstorage.go:37-39 | `LogLine.String` is `[`, the three-character id, `] `, then the canonical form and a newline |
| LogFormat.ShortStringInjective | boundaries/logstorage.go:37-39 | two records render alike exactly when their short ids and canonical forms agree |
| LogFormat.MatchActivityText | boundaries/logstorage.go:49 | group 4: a timestamp shape, a space, and `.*` up to the first newline or the end |
| LogFormat.MatchIdAndText | boundaries/logstorage.go:49 | group 3: a maximal non-empty hex run followed by `) ` and group 4 |
| LogFormat.MatchCommandAndRest | boundaries/logstorage.go:49 | group 2: a non-empty run free of `:` ending at the first colon, followed by `: (` and groups 3 and 4 |
| LogFormat.MatchAt | boundaries/logstorage.go:49-51 | a match at a position has groups of the pattern's shape |
| LogFormat.MatchCovers | boundaries/logstorage.go:49-51 | the text a match reports, with the pattern's literals between its groups, is the text at its position |
| LogFormat.MatchParts | boundaries/logstorage.go:49 | a match reads a bracketed log time, `] ` and then groups 2 to 4 |
| LogFormat.FrameCovered | boundaries/logstorage.go:49 | the bracketed log time followed by the rest of the match is the matched text |
| LogFormat.CommandAndRestCovered | boundaries/logstorage.go:49 | groups 2 to 4 with `: (` and `) ` between them are the text they were read from |
| LogFormat.IdAndTextCovered | boundaries/logstorage.go:49 | groups 3 and 4 with `) ` between them are the text they were read from |
| LogFormat.MatchTable | boundaries/logstorage.go:51 | records, for every start position, whether the pattern matches there |
| LogFormat.FirstTrue | boundaries/logstorage.go:51 | the first set position at or after the start, or none, and no set position before it |
| LogFormat.FirstMatchStart | boundaries/logstorage.go:51 | the leftmost position where the pattern matches; none when it matches nowhere |
| LogFormat.FindSubmatch | boundaries/logstorage.go:51-58 | `FindStringSubmatch`: the groups of the leftmost match, with no match at any earlier position, or nil when no position matches |
| LogFormat.ParseLogLine | boundaries/logstorage.go:48-66 | empty command (the zero record) exactly when nothing matches; otherwise id, command and hex id from the match; the log time is Go's reference instant exactly when the matched log time is the layout text, and zero otherwise; the activity is what `ParseOneActivity` reads from group 4 with the short id, or the zero activity with the short id when the timestamp does not parse |
| LogFormat.WrittenLineMatches | boundaries/logstorage.go:40-51 | a written line matches at its start with the record's log time, command, id and canonical form as the groups |
| LogFormat.WrittenRecordKeys | boundaries/logstorage.go:40-66 | a written line reads back with the record's id and command |
| LogFormat.ParseLogTextSplit | boundaries/logstorage.go:40-66 | a record whose body splits reads back with its id, command and timestamp but a shorter body and another canonical form |
| LogFormat.ParseLogText | boundaries/logstorage.go:40-66 | writing a well-formed record and parsing the line recovers id, command, timestamp and body; the log time comes back only when it is the reference instant and zero otherwise, and the tag comes back empty |
| LogFormat.MatchCanonical | boundaries/logstorage.go:42 | the canonical form of an activity matches group 4 in full |
| LogFormat.MatchIdOf | boundaries/logstorage.go:42 | a hex id, `) ` and the canonical form match groups 3 and 4 |
| LogFormat.MatchCommandOf | boundaries/logstorage.go:42 | a colon-free command, `: (` and the rest match groups 2 to 4 |
| LogFormat.CommandSplit | boundaries/logstorage.go:42 | the written line splits at the colon after the command |
| LogFormat.SpanAtDelimiter | boundaries/logstorage.go:49 | `[^c]*` stops at the delimiter after a word free of it |
| LogFormat.HexSpanAt | boundaries/logstorage.go:49 | `[0-9a-f]+` stops at the end of a hex word |
| LogFormat.Bracketed | boundaries/logstorage.go:42 | the bracketed log time occupies the first 22 characters |
| LogFormat.MatchAtStart | boundaries/logstorage.go:42-51 | a written line matches at position 0 |
| LogStorage.ParseAll | boundaries/logstorage.go:111-112 | each line of the file decoded in order |
| LogStorage.ApplyCases | boundaries/logstorage.go:113-118 | an `ADD` inserts or overwrites, a `DELETE` removes, any other record changes nothing |
| LogStorage.ReplayStep | boundaries/logstorage.go:111-119 | one more line of the scan applies one record |
| LogStorage.ReplaySnoc | boundaries/logstorage.go:111-119 | replaying a log with one more record applies that record to the previous map |
| LogStorage.LastWrite | boundaries/logstorage.go:113-118 | the position of the last `ADD` or `DELETE` of an id, with none after it |
| LogStorage.ReplayIsLastWrite | boundaries/logstorage.go:107-125 | `GetAll` holds an id exactly when its last `ADD`/`DELETE` is an `ADD`, and then holds that record's activity |
| LogStorage.DeleteRemoves | boundaries/logstorage.go:116-118 | after a `DELETE` the id is absent and nothing else changed |
| LogStorage.DeleteUnknownIsNoOp | boundaries/logstorage.go:116-118 | a `DELETE` of an id that is not live is a no-op |
| LogStorage.UnmatchedIsNoOp | boundaries/logstorage.go:58-61 | a line that does not match yields a record that neither inserts nor deletes |
| LogStorage.ParsedShortIds | boundaries/logstorage.go:64 | every parsed record's activity carries the first three characters of its digest |
| LogStorage.ReplayShortIds | boundaries/logstorage.go:64 | every activity `GetAll` holds carries the short form of its key |
| LogStorage.DeletedList | boundaries/logstorage.go:146-151 | `deletedList` holds exactly the ids that have a `DELETE` record |
| LogStorage.Activities | boundaries/logstorage.go:138-140 | one activity per kept record, in order |
| LogStorage.FindIsNeverDeleted | boundaries/logstorage.go:127-158 | `FindActivity` returns, in log order, the prefix-matching records whose id is never deleted anywhere in the log |
| LogStorage.ReAddedIsHiddenFromFind | boundaries/logstorage.go:107-158 | add, delete, add of one id: live for `GetAll`, invisible to `FindActivity` |
| LogStorage.ReAddedReplay | boundaries/logstorage.go:111-119 | replaying add, delete, add leaves the last added activity |
| LogStorage.ReAddedFind | boundaries/logstorage.go:127-158 | three records of one id with a `DELETE` among them: nothing is found |
| LogStorage.DoubleAddIsAmbiguous | boundaries/logstorage.go:107-158 | an id added twice is one `GetAll` entry but two `FindActivity` results |
| LogStorage.DoubleAddReplay | boundaries/logstorage.go:113-115 | the second `ADD` overwrites the first |
| LogStorage.DoubleAddFind | boundaries/logstorage.go:127-158 | both `ADD` records of the id are found, in order |
| LogStorage.SplitBodyOutlivesDelete | boundaries/logstorage.go:127-178 | a lone `ADD` is found by its digest, and a `DELETE` filed under the read-back activity's different digest leaves it live |
| LogStorage.SingleAddFound | boundaries/logstorage.go:127-156 | a lone `ADD` record is found by any prefix of its id |
| LogStorage.OtherDeleteKeepsAdd | boundaries/logstorage.go:111-119 | a `DELETE` of another id leaves an added id live |
| LogStorage.UnmatchedLineBreaksLongIds | boundaries/logstorage.go:127-134 | a line the pattern does not match makes the no-panic condition of `FindActivity` false for every non-empty query |
| LogStorage.DoubleAddAllLive | boundaries/logstorage.go:132-156 | neither record of a double add is deleted, so both pass the prefix and deleted-list tests |
| LogStorage.FoundIsLiveRecord | boundaries/logstorage.go:127-158 | every found activity is that of a record with a matching id that is never deleted |
| LogStorage.FoundShortIds | boundaries/logstorage.go:64 | every found activity of a matched line carries the first three characters of its record's digest |
| LogStorage.ParsedBlankUnmatched | boundaries/logstorage.go:58-61 | a line that does not match carries no id |
| LogStorage.UniqueMatchDigest | boundaries/logstorage.go:127-142 | in a log written by the store, a unique match's digest starts with the query |
| LogStorage.ReadBack | boundaries/logstorage.go:63-64 | the activity read back has the same canonical form, timestamp and body |
| LogStorage.Record | boundaries/logstorage.go:71-76 | the record is filed under the 40-hex-digit digest of the activity's canonical form |
| LogStorage.StorableRecord | boundaries/logstorage.go:69-76 | what the store writes for a four-digit year and a one-line body is a well-formed record |
| LogStorage.AppendDecodable | boundaries/logstorage.go:97 | appending a decodable line appends its decoding to the log |
| LogStorage.AppendLine | boundaries/logstorage.go:97 | appending a written record's line appends the record as read back |
| LogStorage.AddedIsLive | boundaries/logstorage.go:69-78 | after an `ADD` is written, `GetAll` holds the activity, as read back, under the digest |
| LogStorage.DeletedIsGone | boundaries/logstorage.go:169-178 | after a `DELETE` is written, `GetAll` no longer holds the digest and nothing else changes |
| LogStorage.ConsistentAppend | boundaries/logstorage.go:69-78 | records written by the store keep every record filed under its own digest |
| LogStorage.ConsistentSnoc | boundaries/logstorage.go:71-72 | a record filed under its own digest keeps the log consistent |
| LogStorage.AddNewEffect | boundaries/logstorage.go:69-81 | `AddNew` makes the activity live under its digest and keeps the log consistent |
| LogStorage.DeleteEffect | boundaries/logstorage.go:169-178 | `Delete` removes the activity's digest from `GetAll` and keeps the log consistent |
| LogStorage.Logfile.constructor | boundaries/logstorage.go:20-22 | a store over the given file contents and digest function, with no calls made |
| LogStorage.Logfile.AppendThisLine | boundaries/logstorage.go:83-99 | the record's text becomes the last line; earlier lines are unchanged |
| LogStorage.Logfile.AddNew | boundaries/logstorage.go:69-81 | appends exactly one `ADD` line under `sha(String())` and returns that digest's first three characters |
| LogStorage.Logfile.Delete | boundaries/logstorage.go:169-178 | appends exactly one `DELETE` line under `sha(String())` |
| LogStorage.Logfile.GetAll | boundaries/logstorage.go:107-125 | each value of the replayed map exactly once: as many activities as live ids, exactly the live activities, under distinct keys that are exactly the map's keys |
| LogStorage.Logfile.FindActivity | boundaries/logstorage.go:127-142 | the activities of the prefix-matching records left by `removeDeletedActivities`, in log order |
| LogStorage.ReplayLines | boundaries/logstorage.go:109-119 | the scan loop builds the replay of the decoded lines |
| LogStorage.ApplyLine | boundaries/logstorage.go:113-118 | the loop body applies one record |
| LogStorage.Values | boundaries/logstorage.go:120-123 | the `range` loop lists every value once: as many entries as the map has keys, exactly the map's values, each under a distinct key |
| LogStorage.ValuesEnumerated | boundaries/logstorage.go:120-123 | the values `GetAll` lists are as many as the map's keys and exactly the map's values |
| LogStorage.ActivitiesOf | boundaries/logstorage.go:138-140 | the output loop appends the kept records' activities in order |
| LogStorage.RemoveDeletedActivities | boundaries/logstorage.go:144-158 | the input records in order, minus every record whose id has a `DELETE` in the input |
| LogStorage.StringInSlice | boundaries/logstorage.go:160-167 | true exactly when the string is in the list |
| UseCases.DelayTimestamp | usecases/delay_activity.go:73-91 | succeeds exactly for the ten unit names; months and days move the date and keep the time; weeks are seven days; hours and minutes move the absolute minute; otherwise the unit error |
| UseCases.DelayByDays | usecases/delay_activity.go:80-82 | a delay in days is the calendar's day arithmetic |
| UseCases.WeekIsSevenDays | usecases/delay_activity.go:77-82 | a delay of `n` weeks equals a delay of `7n` days |
| UseCases.DayIsMinutes | usecases/delay_activity.go:80-88 | with no daylight saving a day of calendar arithmetic is 1440 minutes of duration |
| UseCases.DelaysAdd | usecases/delay_activity.go:77-88 | two delays by a unit other than months add up |
| UseCases.DelayByZero | usecases/delay_activity.go:73-88 | a delay by zero of a legal unit changes nothing |
| UseCases.DelayIsLater | usecases/delay_activity.go:73-88 | a positive delay of a legal unit moves the time later |
| UseCases.InstantInjective | usecases/delay_activity.go:83-88 | a timestamp is determined by the minute it denotes |
| UseCases.WriteAmbiguous | usecases/delay_activity.go:44-51 | the buffer loop builds the header, one listing line per match in order, and the trailer |
| UseCases.FindSingle | usecases/activity_done.go:32-47 | one `FindActivity` call; the single match, or the not-found or ambiguity error |
| UseCases.AddItem | usecases/add_activity.go:17-19 | exactly one `AddNew` call with the activity unchanged, returning its id |
| UseCases.SameElements | usecases/current_activity.go:24 | sorting keeps the length and the elements |
| UseCases.NotDueAfter | usecases/current_activity.go:28-31 | after the first activity that is not yet due, no sorted activity is due |
| UseCases.SortedActivities | usecases/current_activity.go:24 | the activities sorted by `(timestamp, body)`, a permutation of the input |
| UseCases.DueLines | usecases/current_activity.go:28-33 | the listing forms of the sorted prefix of activities not after `now`, in order |
| UseCases.GetActivity | usecases/current_activity.go:19-35 | one `GetAll` call, whose listing (each live digest once, with its activity) is sorted into a permutation of itself; the output is the listing forms, in `(timestamp, body)` order, of exactly the sorted activities not after `now` |
| UseCases.MarkActivityAsDone | usecases/activity_done.go:31-50 | one `FindActivity` call; with one match one `DELETE` of it and no error; otherwise the error and no write |
| UseCases.Moved | usecases/delay_activity.go:60-65 | the new activity keeps tag and body at the new time |
| UseCases.DelayActivity | usecases/delay_activity.go:37-67 | one `FindActivity` call; with one match and a legal unit a `DELETE` of it, then an `ADD` of it moved; otherwise the error and no write |
| UseCases.DoneEffect | usecases/activity_done.go:48 | after marking done, `GetAll` loses exactly the match's digest, which starts with the id given |
| UseCases.DelayEffect | usecases/delay_activity.go:59-65 | after delaying, `GetAll` has lost the old digest and holds the moved activity under its own |
| UseCases.DelayActivityOneDay | usecases/delay_activity.go:69-71 | behaves as `DelayActivity(id, 1, "day")`: the same store calls and lines, with the match moved one calendar day later |

## Left out

- Time zones: `Australia/Melbourne` is treated as a fixed offset. Daylight-saving jumps in `ParseInLocation`, `AddDate` and `Add` are not modelled.
- The machine's local zone is taken to be `Australia/Melbourne`. The clock reading `now` is one set of wall-clock fields. It is used both to compare with activity timestamps, which Go reads in `Australia/Melbourne`, and to write the log time, which Go formats in the local zone. On a machine in another zone, Go's log time shows that zone's wall clock, while the model writes Melbourne's.
- Seconds and sub-second parts of `time.Time` are not modelled, except the log time's seconds. Activity timestamps have minute resolution, as their layout does.
- UseCases.DelayTimestamp: the int64 overflow of `time.Duration(count) * time.Hour` and of Go's year range is not modelled, because counts are unbounded integers here.
- Strings are sequences of characters. Go indexes bytes, which agrees only on ASCII text.
- SHA-1 is kept abstract. The digest function is a parameter that returns 40 lower-case hex characters; the compression function is not modelled.
- The file system is not modelled: `os.OpenFile`, the create-and-retry path and I/O errors. The file is the `lines` field, a missing file is the empty sequence, and writes never fail. So the swallowed errors of `AddNew`, and the error of `Delete` that the use cases ignore, do not arise.
- The `bufio.Scanner` details are not modelled: its buffer limit and its removal of a trailing `\r`. A body holding a newline would split a record across lines; the round-trip lemmas require one-line bodies.
- The reader of `activity.go` is modelled as the whole input text, and a read error as the end of input.
- `time.Now()` is a parameter `now` of the operations that read the clock.
- UseCases.DelayActivity: Go's `Delete` and `AddNew` each read the clock, so the `DELETE` and `ADD` records of one delay may carry different log times. The model passes one `now` to both, so both records carry the same log time. The same holds for UseCases.DelayActivityOneDay. No reader uses the log time.
- The use cases take the concrete `Logfile` rather than the `CommandDeleter`/`CommandAdder`/`CommandGetter` interfaces. The ghost `calls` trace records the interface calls they make.
- LogStorage.Logfile.GetAll: Go's map iteration order is unspecified. The method lists the values in an order chosen by the model, and its contract promises no order.
- Entities.Sort: Go's `sort.Sort` algorithm is replaced by an insertion sort. Only its contract is shared (sorted, and a permutation). Activities with equal timestamp and body may end in a different relative order.
- Legacy.Sort: the same replacement; the order of equal timestamps is not fixed by the contract.
- Entities.ParseOneActivity: the text of the parse error is not Go's exact `time.ParseError` message. On failure Go also returns the zero activity, which callers read with `GetOr(ZeroActivity)`.
- UseCases.FindSingle: the ambiguity message is returned verbatim. Go passes it to `fmt.Errorf` as a format string, so a `%` in a body would be rewritten.
- Go panics become preconditions rather than modelled crashes:
  - `SliceSafe`: `input[0:16]` and `input[17:]` are in range;
  - `Decodable`: a matched id has at least three characters;
  - `LongIds`: every parsed id is at least as long as the query.
- LogFormat.ParseLogLine: only the log time equal to the layout text is read back as a time. Go may also accept a few other log times before 2007 as layouts for the fixed text (for example `2006-01-02T15:04:04` reads back with minute 5); the model gives those the zero time. No reader uses the log time.
- LogFormat.ParseLogText: stated only for well-formed records: a four-digit year, a non-empty command without `:`, a lower-case hex id of at least three characters, and a one-line body that does not start with `@rtask` followed by a space. Other records do not round-trip.
- LogStorage.AddNewEffect: the replay effect is stated only for storable activities (four-digit years, one-line body that the parser does not split). The same holds for LogStorage.DeleteEffect, UseCases.DoneEffect and UseCases.DelayEffect.
- The `fmt.Println` notice for unmatched lines, and the `main` functions of `activity.go` and `bin/http/server.go` (argument handling, environment, printing), are not modelled.
- `usecases/grep_activies.go` is not part of this model: it forwards to a `Grep` method that no core file implements.
- The `ByTime` `Len`/`Swap` pair is not modelled separately; swaps happen inside the array sort.
