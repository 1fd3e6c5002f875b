/** The append-only log of `boundaries/logstorage.go`: the store writes one
    `ADD` or `DELETE` record per change, `GetAll` replays the whole log into
    a map from digest to activity, and `FindActivity` resolves a digest
    prefix by a different rule, dropping every id that was ever deleted. */
module LogStorage {
  import opened Basics
  import opened Strings
  import opened Calendar
  import opened Entities
  import opened LogFormat
  import opened Sequences

  const AddCommand: string := "ADD"
  const DeleteCommand: string := "DELETE"

  /** A SHA-1 digest as `%x` prints it: forty lower-case hex characters. */
  predicate IsHexDigest(h: string) {
    |h| == 40 && AllLowerHex(h)
  }

  const ZeroDigest: string := "0000000000000000000000000000000000000000"

  /** `sha`: the digest function, of which the model knows only the shape
      of its output. */
  type Hasher = f: string -> string | forall s :: IsHexDigest(f(s))
    witness (s: string) => ZeroDigest

  // ---------------------------------------------------------------------
  // Reading the whole log

  /** Every line can be decoded without a panic. */
  predicate AllDecodable(lines: seq<string>) {
    forall i :: 0 <= i < |lines| ==> Decodable(lines[i])
  }

  /** The records of the log, line by line. */
  function ParseAll(lines: seq<string>): (r: seq<LogLine>)
    requires AllDecodable(lines)
    ensures |r| == |lines|
    ensures forall i :: 0 <= i < |lines| ==> r[i] == ParseLogLine(lines[i])
  {
    seq(|lines|, i requires 0 <= i < |lines| => ParseLogLine(lines[i]))
  }

  /** The effect of one record on `foundActivities`. */
  function Apply(m: map<string, Activity>, l: LogLine): map<string, Activity> {
    var added := if l.command == AddCommand then m[l.id := l.activity] else m;
    if l.command == DeleteCommand then added - {l.id} else added
  }

  lemma ApplyCases(m: map<string, Activity>, l: LogLine)
    ensures l.command == AddCommand ==> Apply(m, l) == m[l.id := l.activity]
    ensures l.command == DeleteCommand ==> Apply(m, l) == m - {l.id}
    ensures l.command != AddCommand && l.command != DeleteCommand ==> Apply(m, l) == m
  {
  }

  /** The map `GetAll` builds: the records applied in log order. */
  function Replay(log: seq<LogLine>): map<string, Activity>
    decreases |log|
  {
    if |log| == 0 then map[] else Apply(Replay(log[..|log| - 1]), log[|log| - 1])
  }

  lemma ReplayStep(log: seq<LogLine>, i: int)
    requires 0 <= i < |log|
    ensures Replay(log[..i + 1]) == Apply(Replay(log[..i]), log[i])
  {
    assert log[..i + 1][..i] == log[..i];
  }

  lemma ReplaySnoc(log: seq<LogLine>, l: LogLine)
    ensures Replay(log + [l]) == Apply(Replay(log), l)
  {
    assert (log + [l])[..|log|] == log;
  }

  /** The record is an `ADD` or `DELETE` of `id`. */
  predicate Writes(l: LogLine, id: string) {
    l.id == id && (l.command == AddCommand || l.command == DeleteCommand)
  }

  /** Position of the last `ADD` or `DELETE` of `id`, or -1. */
  function LastWrite(log: seq<LogLine>, id: string): (k: int)
    ensures -1 <= k < |log|
    ensures k >= 0 ==> Writes(log[k], id)
    ensures forall j :: k < j < |log| ==> !Writes(log[j], id)
    decreases |log|
  {
    if |log| == 0 then -1
    else if Writes(log[|log| - 1], id) then |log| - 1
    else LastWrite(log[..|log| - 1], id)
  }

  /** `GetAll` holds `id` exactly when the last `ADD`/`DELETE` of `id` is an
      `ADD`, and then holds that record's activity. */
  lemma {:induction false} ReplayIsLastWrite(log: seq<LogLine>, id: string)
    ensures var k := LastWrite(log, id);
      && (id in Replay(log) <==> k >= 0 && log[k].command == AddCommand)
      && (id in Replay(log) ==> Replay(log)[id] == log[k].activity)
    decreases |log|
  {
    if |log| > 0 {
      var n := |log| - 1;
      ReplayIsLastWrite(log[..n], id);
    }
  }

  /** A `DELETE` record removes its id, whatever came before. */
  lemma DeleteRemoves(log: seq<LogLine>, l: LogLine)
    requires l.command == DeleteCommand
    ensures l.id !in Replay(log + [l])
    ensures Replay(log + [l]) == Replay(log) - {l.id}
  {
    assert (log + [l])[..|log|] == log;
  }

  /** A `DELETE` of an id that is not live changes nothing. */
  lemma DeleteUnknownIsNoOp(log: seq<LogLine>, l: LogLine)
    requires l.command == DeleteCommand && l.id !in Replay(log)
    ensures Replay(log + [l]) == Replay(log)
  {
    assert (log + [l])[..|log|] == log;
  }

  /** A line that does not match the pattern changes nothing. */
  lemma UnmatchedIsNoOp(log: seq<LogLine>)
    ensures Replay(log + [ZeroLogLine]) == Replay(log)
  {
    assert (log + [ZeroLogLine])[..|log|] == log;
  }

  /** Every record read back carries as its activity's id the first three
      digest characters. */
  predicate ShortIds(log: seq<LogLine>) {
    forall k :: 0 <= k < |log| && log[k].command != "" ==>
      |log[k].id| >= IdxLength && log[k].activity.id == log[k].id[..IdxLength]
  }

  lemma ParsedShortIds(lines: seq<string>)
    requires AllDecodable(lines)
    ensures ShortIds(ParseAll(lines))
  {
  }

  /** Every activity `GetAll` returns carries the short form of its key. */
  lemma ReplayShortIds(log: seq<LogLine>)
    requires ShortIds(log)
    ensures forall id :: id in Replay(log) ==>
      |id| >= IdxLength && Replay(log)[id].id == id[..IdxLength]
  {
    forall id | id in Replay(log)
      ensures |id| >= IdxLength && Replay(log)[id].id == id[..IdxLength]
    {
      ReplayIsLastWrite(log, id);
    }
  }

  // ---------------------------------------------------------------------
  // Resolving a prefix

  /** `FindActivity` slices every id to the query's length; Go panics on
      a shorter id. */
  predicate LongIds(log: seq<LogLine>, q: string) {
    forall k :: 0 <= k < |log| ==> |log[k].id| >= |q|
  }

  /** One line of the file that the pattern does not match decodes with
      the empty id, so `FindActivity` panics on every non-empty query. */
  lemma UnmatchedLineBreaksLongIds(lines: seq<string>, k: nat, q: string)
    requires AllDecodable(lines) && k < |lines| && FindSubmatch(lines[k]).None? && q != ""
    ensures !LongIds(ParseAll(lines), q)
  {
    assert ParseAll(lines)[k] == ZeroLogLine;
  }

  /** The test `thisline.Id[0:len(id)] == id`. */
  function HasPrefix(q: string): LogLine -> bool {
    (l: LogLine) => StartsWith(l.id, q)
  }

  /** The records whose id starts with the query, in log order. */
  function Matching(log: seq<LogLine>, q: string): seq<LogLine> {
    Filter(log, HasPrefix(q))
  }

  /** `deletedList`: the ids of the `DELETE` records, in log order. */
  function DeletedList(log: seq<LogLine>): (r: seq<string>)
    ensures forall id :: id in r <==> DeletedAnywhere(log, id)
    decreases |log|
  {
    if |log| == 0 then []
    else
      var n := |log| - 1;
      assert log == log[..n] + [log[n]];
      DeletedList(log[..n]) + (if log[n].command == DeleteCommand then [log[n].id] else [])
  }

  /** Some `DELETE` record of `id` occurs in `log`. */
  predicate DeletedAnywhere(log: seq<LogLine>, id: string) {
    exists l :: l in log && l.command == DeleteCommand && l.id == id
  }

  /** `removeDeletedActivities`: the records whose id has no `DELETE`
      among the same records, in their order. */
  function RemoveDeleted(log: seq<LogLine>): seq<LogLine> {
    Filter(log, NotIn(DeletedList(log)))
  }

  /** The test `!stringInSlice(secondlogline.Id, deletedList)`. */
  function NotIn(deleted: seq<string>): LogLine -> bool {
    (l: LogLine) => l.id !in deleted
  }

  /** The record's id starts with `q` and is never deleted in `log`. */
  function LiveWithPrefix(log: seq<LogLine>, q: string): LogLine -> bool {
    (l: LogLine) => StartsWith(l.id, q) && !DeletedAnywhere(log, l.id)
  }

  function Activities(log: seq<LogLine>): (r: seq<Activity>)
    ensures |r| == |log| && forall k :: 0 <= k < |log| ==> r[k] == log[k].activity
  {
    seq(|log|, k requires 0 <= k < |log| => log[k].activity)
  }

  /** What `FindActivity` returns. */
  function FindSpec(log: seq<LogLine>, q: string): seq<Activity> {
    Activities(RemoveDeleted(Matching(log, q)))
  }

  /** `FindActivity` returns, in log order, the activity of every record
      whose id starts with the query and whose id was never deleted
      anywhere in the log: a `DELETE` of such an id always matches the
      query too. */
  lemma FindIsNeverDeleted(log: seq<LogLine>, q: string)
    ensures FindSpec(log, q) == Activities(Filter(log, LiveWithPrefix(log, q)))
  {
    var m := Matching(log, q);
    forall x | x in log
      ensures LiveWithPrefix(log, q)(x) == (HasPrefix(q)(x) && NotIn(DeletedList(m))(x))
    {
      if StartsWith(x.id, q) && DeletedAnywhere(log, x.id) {
        var y :| y in log && y.command == DeleteCommand && y.id == x.id;
        assert y in m;
      }
    }
    FilterFilter(log, HasPrefix(q), NotIn(DeletedList(m)), LiveWithPrefix(log, q));
  }

  /** The two readers disagree: an id added, deleted and added again is
      live for `GetAll` but `FindActivity` never returns it. */
  lemma ReAddedIsHiddenFromFind(id: string, now: Clock, a: Activity, b: Activity, c: Activity)
    ensures var log := [LogLine(id, now, AddCommand, a), LogLine(id, now, DeleteCommand, b),
                        LogLine(id, now, AddCommand, c)];
      && Replay(log) == map[id := c]
      && FindSpec(log, id) == []
  {
    var log := [LogLine(id, now, AddCommand, a), LogLine(id, now, DeleteCommand, b),
                LogLine(id, now, AddCommand, c)];
    ReAddedReplay(log);
    ReAddedFind(log);
  }

  lemma ReAddedFind(log: seq<LogLine>)
    requires |log| == 3 && log[0].id == log[1].id == log[2].id
    requires log[1].command == DeleteCommand
    ensures FindSpec(log, log[0].id) == []
  {
    var id := log[0].id;
    FindIsNeverDeleted(log, id);
    assert DeletedAnywhere(log, id) by {
      assert log[1] in log;
    }
    FilterNone(log, LiveWithPrefix(log, id));
  }

  lemma {:induction false} ReAddedReplay(log: seq<LogLine>)
    requires |log| == 3 && log[0].id == log[1].id == log[2].id
    requires log[0].command == AddCommand && log[1].command == DeleteCommand
    requires log[2].command == AddCommand
    ensures Replay(log) == map[log[2].id := log[2].activity]
  {
    assert log[..2][..1] == log[..1] && log[..1][..0] == [];
    assert Replay(log[..1]) == map[log[0].id := log[0].activity] by {
      assert Replay(log[..0]) == map[];
    }
    assert Replay(log[..2]) == map[];
  }

  /** The two readers disagree: an id added twice is one entry for
      `GetAll` but two matches, an ambiguity, for `FindActivity`. */
  lemma {:induction false} DoubleAddIsAmbiguous(log: seq<LogLine>)
    requires |log| == 2 && log[0].id == log[1].id
    requires log[0].command == AddCommand && log[1].command == AddCommand
    ensures Replay(log) == map[log[1].id := log[1].activity]
    ensures FindSpec(log, log[0].id) == [log[0].activity, log[1].activity]
  {
    DoubleAddReplay(log);
    DoubleAddFind(log);
  }

  lemma DoubleAddFind(log: seq<LogLine>)
    requires |log| == 2 && log[0].id == log[1].id
    requires log[0].command == AddCommand && log[1].command == AddCommand
    ensures FindSpec(log, log[0].id) == [log[0].activity, log[1].activity]
  {
    DoubleAddAllLive(log);
    FindIsNeverDeleted(log, log[0].id);
    var r := Activities(log);
    assert |r| == 2 && r[0] == log[0].activity && r[1] == log[1].activity;
  }

  /** Neither record of a double add is deleted, so both pass the test. */
  lemma DoubleAddAllLive(log: seq<LogLine>)
    requires |log| == 2 && log[0].id == log[1].id
    requires log[0].command == AddCommand && log[1].command == AddCommand
    ensures Filter(log, LiveWithPrefix(log, log[0].id)) == log
  {
    var p := LiveWithPrefix(log, log[0].id);
    assert !DeletedAnywhere(log, log[0].id);
    assert StartsWith(log[0].id, log[0].id);
    assert p(log[0]) && p(log[1]);
    FilterAll(log, p);
  }


  /** An activity whose body itself starts with the marker and has a later
      space is read back with a tag split off and another canonical form
      (`ParseLogTextSplit`). `FindActivity` returns that read-back activity,
      and the `DELETE` that marking it done writes is filed under the
      digest of its canonical form, which the `DELETE` line reads back
      with (`WrittenRecordKeys`). Unless the digest function collides on
      the two forms, the added activity stays live. */
  lemma SplitBodyOutlivesDelete(sha: Hasher, a: Activity, back: LogLine, del: LogLine)
    requires back.command == AddCommand && back.id == sha(String(a))
    requires del.command == DeleteCommand && del.id == sha(String(back.activity))
    requires sha(String(back.activity)) != sha(String(a))
    ensures FindSpec([back], sha(String(a))) == [back.activity]
    ensures sha(String(a)) in Replay([back, del])
  {
    SingleAddFound(back, sha(String(a)));
    OtherDeleteKeepsAdd(back, del);
  }

  /** A lone `ADD` record is found by any prefix of its id. */
  lemma SingleAddFound(l: LogLine, q: string)
    requires l.command == AddCommand && StartsWith(l.id, q)
    ensures FindSpec([l], q) == [l.activity]
  {
    var log := [l];
    FindIsNeverDeleted(log, q);
    assert !DeletedAnywhere(log, l.id);
    FilterAll(log, LiveWithPrefix(log, q));
  }

  /** A `DELETE` of another id leaves an added id live. */
  lemma OtherDeleteKeepsAdd(add: LogLine, del: LogLine)
    requires add.command == AddCommand && del.command == DeleteCommand && del.id != add.id
    ensures add.id in Replay([add, del])
  {
    var log := [add, del];
    assert log[..1] == [add] && log[..0] == [];
    ReplaySnoc(log[..1], del);
    assert log == log[..1] + [del];
  }

  lemma {:induction false} DoubleAddReplay(log: seq<LogLine>)
    requires |log| == 2 && log[0].id == log[1].id
    requires log[0].command == AddCommand && log[1].command == AddCommand
    ensures Replay(log) == map[log[1].id := log[1].activity]
  {
    assert log[..1] == [log[0]] && log[..1][..0] == [];
    assert Replay(log[..1]) == map[log[0].id := log[0].activity] by {
      assert Replay(log[..0]) == map[];
    }
  }

  // ---------------------------------------------------------------------
  // Writing and reading back

  /** What a record's activity becomes once its line is read back: the id is
      the digest's first three characters and the tag is lost, because the
      line holds only the canonical form. */
  function ReadBack(l: LogLine): (a: Activity)
    requires |l.id| >= IdxLength
    ensures String(a) == String(l.activity)
    ensures a.timestamp == l.activity.timestamp && a.body == l.activity.body
  {
    Activity(l.id[..IdxLength], l.activity.timestamp, "", l.activity.body)
  }

  /** What a record's log time becomes once its line is read back. */
  function ReadBackTime(l: LogLine): Clock {
    if l.now == ReferenceClock then l.now else ZeroClock
  }

  /** An activity and a clock whose record reads back as written: years
      that print in four digits, a body that stays on one line and that
      the parser will not split into a tag. */
  predicate Storable(a: Activity, now: Clock) {
    && 0 <= now.stamp.year < 10000
    && 0 <= a.timestamp.year < 10000
    && '\n' !in a.body
    && !BodySplits(a.body)
  }

  lemma StorableRecord(id: string, command: string, a: Activity, now: Clock)
    requires IsHexDigest(id) && Storable(a, now)
    requires command == AddCommand || command == DeleteCommand
    ensures WellFormed(LogLine(id, now, command, a))
  {
  }

  /** Appending a decodable line appends its decoding to the log. */
  lemma AppendDecodable(lines: seq<string>, t: string)
    requires AllDecodable(lines) && Decodable(t)
    ensures AllDecodable(lines + [t])
    ensures ParseAll(lines + [t]) == ParseAll(lines) + [ParseLogLine(t)]
  {
    var more := lines + [t];
    forall i | 0 <= i < |more|
      ensures Decodable(more[i])
    {
      if i < |lines| {
        assert more[i] == lines[i];
      }
    }
    var r := ParseAll(more);
    var r0 := ParseAll(lines);
    forall i | 0 <= i < |more|
      ensures r[i] == (r0 + [ParseLogLine(t)])[i]
    {
      if i < |lines| {
        assert more[i] == lines[i];
      }
    }
  }

  /** Appending a record's line appends its decoding to the log. */
  lemma AppendLine(lines: seq<string>, l: LogLine)
    requires AllDecodable(lines) && WellFormed(l)
    ensures Decodable(LogText(l)) && AllDecodable(lines + [LogText(l)])
    ensures ParseAll(lines + [LogText(l)]) == ParseAll(lines) + [ParseLogLine(LogText(l))]
    ensures ParseLogLine(LogText(l)) == LogLine(l.id, ReadBackTime(l), l.command, ReadBack(l))
  {
    ParseLogText(l);
    AppendDecodable(lines, LogText(l));
  }

  /** After an `ADD` line is written, `GetAll` holds the activity, as read
      back, under the record's digest. */
  lemma AddedIsLive(lines: seq<string>, l: LogLine)
    requires AllDecodable(lines) && WellFormed(l) && l.command == AddCommand
    ensures AllDecodable(lines + [LogText(l)])
    ensures Replay(ParseAll(lines + [LogText(l)])) == Replay(ParseAll(lines))[l.id := ReadBack(l)]
  {
    AppendLine(lines, l);
    ReplaySnoc(ParseAll(lines), LogLine(l.id, ReadBackTime(l), l.command, ReadBack(l)));
  }

  /** After a `DELETE` line is written, `GetAll` no longer holds its digest
      and nothing else changes. */
  lemma DeletedIsGone(lines: seq<string>, l: LogLine)
    requires AllDecodable(lines) && WellFormed(l) && l.command == DeleteCommand
    ensures AllDecodable(lines + [LogText(l)])
    ensures Replay(ParseAll(lines + [LogText(l)])) == Replay(ParseAll(lines)) - {l.id}
  {
    AppendLine(lines, l);
    ReplaySnoc(ParseAll(lines), LogLine(l.id, ReadBackTime(l), l.command, ReadBack(l)));
  }

  /** Every record in the log is filed under the digest of its activity's
      canonical form, as `AddNew` and `Delete` write them. */
  predicate Consistent(log: seq<LogLine>, sha: Hasher) {
    forall k :: 0 <= k < |log| && log[k].command != "" ==> log[k].id == sha(String(log[k].activity))
  }

  /** Records written by the store keep the log consistent. */
  lemma ConsistentAppend(lines: seq<string>, sha: Hasher, command: string, a: Activity, now: Clock)
    requires AllDecodable(lines) && Consistent(ParseAll(lines), sha)
    requires Storable(a, now) && (command == AddCommand || command == DeleteCommand)
    ensures var l := LogLine(sha(String(a)), now, command, a);
      AllDecodable(lines + [LogText(l)]) && Consistent(ParseAll(lines + [LogText(l)]), sha)
  {
    var l := LogLine(sha(String(a)), now, command, a);
    StorableRecord(l.id, command, a, now);
    AppendLine(lines, l);
    ConsistentSnoc(ParseAll(lines), LogLine(l.id, ReadBackTime(l), command, ReadBack(l)), sha);
  }

  lemma ConsistentSnoc(log: seq<LogLine>, r: LogLine, sha: Hasher)
    requires Consistent(log, sha)
    requires r.command != "" ==> r.id == sha(String(r.activity))
    ensures Consistent(log + [r], sha)
  {
    var more := log + [r];
    forall k | 0 <= k < |more| && more[k].command != ""
      ensures more[k].id == sha(String(more[k].activity))
    {
      if k < |log| {
        assert more[k] == log[k];
      }
    }
  }

  /** The record `AddNew` or `Delete` writes for `a`: filed under the
      digest of its canonical form. */
  function Record(sha: Hasher, command: string, a: Activity, now: Clock): (l: LogLine)
    ensures IsHexDigest(l.id) && l.id == sha(String(a))
  {
    LogLine(sha(String(a)), now, command, a)
  }

  /** After `AddNew` the replayed map holds the activity, as read back,
      under its digest, and a consistent log stays consistent. */
  lemma AddNewEffect(lines: seq<string>, sha: Hasher, a: Activity, now: Clock)
    requires AllDecodable(lines) && Storable(a, now)
    ensures var l := Record(sha, AddCommand, a, now);
      && AllDecodable(lines + [LogText(l)])
      && Replay(ParseAll(lines + [LogText(l)])) == Replay(ParseAll(lines))[l.id := ReadBack(l)]
      && (Consistent(ParseAll(lines), sha) ==> Consistent(ParseAll(lines + [LogText(l)]), sha))
  {
    var l := Record(sha, AddCommand, a, now);
    StorableRecord(l.id, AddCommand, a, now);
    AddedIsLive(lines, l);
    if Consistent(ParseAll(lines), sha) {
      ConsistentAppend(lines, sha, AddCommand, a, now);
    }
  }

  /** After `Delete` the replayed map no longer holds the activity's
      digest, and a consistent log stays consistent. */
  lemma DeleteEffect(lines: seq<string>, sha: Hasher, a: Activity, now: Clock)
    requires AllDecodable(lines) && Storable(a, now)
    ensures var l := Record(sha, DeleteCommand, a, now);
      && AllDecodable(lines + [LogText(l)])
      && Replay(ParseAll(lines + [LogText(l)])) == Replay(ParseAll(lines)) - {l.id}
      && (Consistent(ParseAll(lines), sha) ==> Consistent(ParseAll(lines + [LogText(l)]), sha))
  {
    var l := Record(sha, DeleteCommand, a, now);
    StorableRecord(l.id, DeleteCommand, a, now);
    DeletedIsGone(lines, l);
    if Consistent(ParseAll(lines), sha) {
      ConsistentAppend(lines, sha, DeleteCommand, a, now);
    }
  }

  /** Each activity `FindActivity` returns is that of a record whose id
      starts with the query and is never deleted. */
  lemma FoundIsLiveRecord(log: seq<LogLine>, q: string, i: int)
    requires 0 <= i < |FindSpec(log, q)|
    ensures exists k :: (0 <= k < |log| && log[k].activity == FindSpec(log, q)[i]
      && StartsWith(log[k].id, q) && !DeletedAnywhere(log, log[k].id))
  {
    FindIsNeverDeleted(log, q);
    var kept := Filter(log, LiveWithPrefix(log, q));
    var x := kept[i];
    assert x in kept;
    var k :| 0 <= k < |log| && log[k] == x;
  }

  /** Each activity `FindActivity` returns carries as its id the first
      three digest characters of its record, unless it comes from a line
      that did not match (possible only for the empty query). */
  lemma FoundShortIds(log: seq<LogLine>, q: string, i: int)
    requires ShortIds(log) && 0 <= i < |FindSpec(log, q)|
    ensures exists k :: (0 <= k < |log| && log[k].activity == FindSpec(log, q)[i]
      && StartsWith(log[k].id, q)
      && (log[k].command != "" ==> |log[k].id| >= IdxLength && FindSpec(log, q)[i].id == log[k].id[..IdxLength]))
  {
    FoundIsLiveRecord(log, q, i);
  }

  /** Records with no command, the unmatched lines, carry no id. */
  predicate BlankUnmatched(log: seq<LogLine>) {
    forall k :: 0 <= k < |log| && log[k].command == "" ==> log[k].id == ""
  }

  lemma ParsedBlankUnmatched(lines: seq<string>)
    requires AllDecodable(lines)
    ensures BlankUnmatched(ParseAll(lines))
  {
  }

  /** In a consistent log, a unique match's digest, the id `Delete` writes,
      starts with the query. */
  lemma UniqueMatchDigest(log: seq<LogLine>, sha: Hasher, q: string)
    requires Consistent(log, sha) && BlankUnmatched(log) && |FindSpec(log, q)| == 1
    ensures StartsWith(sha(String(FindSpec(log, q)[0])), q)
  {
    FoundIsLiveRecord(log, q, 0);
    var k :| 0 <= k < |log| && log[k].activity == FindSpec(log, q)[0]
      && StartsWith(log[k].id, q) && !DeletedAnywhere(log, log[k].id);
    if log[k].command == "" {
      assert q == [];
    }
  }

  // ---------------------------------------------------------------------
  // The store

  /** A call made on the store, recorded in order. */
  datatype Call = FindCall(query: string) | DeleteCall(activity: Activity) | AddCall(activity: Activity) | GetAllCall

  /** `Logfile`: the lines of the log file and the digest function. */
  class Logfile {
    var lines: seq<string>
    const sha: Hasher
    ghost var calls: seq<Call>

    /** A store over a file that already holds `lines`; a missing file is
        the empty sequence. */
    constructor (sha: Hasher, lines: seq<string>)
      ensures this.sha == sha && this.lines == lines && calls == []
    {
      this.sha := sha;
      this.lines := lines;
      calls := [];
    }

    /** Every line decodes without a panic. */
    predicate Readable()
      reads this`lines
    {
      AllDecodable(lines)
    }

    /** The records of the log. */
    function Log(): seq<LogLine>
      reads this`lines
      requires Readable()
    {
      ParseAll(lines)
    }

    /** `appendThisLine`: the record becomes the last line. */
    method AppendThisLine(l: LogLine)
      modifies this`lines
      ensures lines == old(lines) + [LogText(l)]
    {
      lines := lines + [LogText(l)];
    }

    /** `AddNew`: appends an `ADD` of the activity under the digest of its
        canonical form and returns the first three digest characters. */
    method AddNew(a: Activity, now: Clock) returns (id: string)
      modifies this`lines, this`calls
      ensures lines == old(lines) + [LogText(Record(sha, AddCommand, a, now))]
      ensures calls == old(calls) + [AddCall(a)]
      ensures |id| == IdxLength && id == sha(String(a))[..IdxLength]
    {
      var thisLine := Record(sha, AddCommand, a, now);
      AppendThisLine(thisLine);
      calls := calls + [AddCall(a)];
      id := thisLine.id[..IdxLength];
    }

    /** `Delete`: appends a `DELETE` of the activity. */
    method Delete(a: Activity, now: Clock)
      modifies this`lines, this`calls
      ensures lines == old(lines) + [LogText(Record(sha, DeleteCommand, a, now))]
      ensures calls == old(calls) + [DeleteCall(a)]
    {
      var thisLine := Record(sha, DeleteCommand, a, now);
      AppendThisLine(thisLine);
      calls := calls + [DeleteCall(a)];
    }

    /** `GetAll`: replays the log into a map, then lists the map's values in
        an unspecified order; `ids` names the key of each value. */
    method GetAll() returns (acts: seq<Activity>, ghost ids: seq<string>)
      requires Readable()
      modifies this`calls
      ensures calls == old(calls) + [GetAllCall]
      ensures |acts| == |ids|
      ensures forall i, j :: 0 <= i < j < |ids| ==> ids[i] != ids[j]
      ensures forall id :: id in ids <==> id in Replay(Log())
      ensures forall i :: 0 <= i < |ids| ==> acts[i] == Replay(Log())[ids[i]]
      ensures |acts| == |Replay(Log()).Keys|
      ensures forall a :: a in acts <==> a in Replay(Log()).Values
    {
      var found := ReplayLines(lines);
      acts, ids := Values(found);
      calls := calls + [GetAllCall];
    }

    /** `FindActivity`: the activities of the records whose id starts with
        the query, without those whose id has a matching `DELETE`. */
    method FindActivity(q: string) returns (acts: seq<Activity>)
      requires Readable() && LongIds(Log(), q)
      modifies this`calls
      ensures calls == old(calls) + [FindCall(q)]
      ensures acts == FindSpec(Log(), q)
    {
      ghost var log := Log();
      var loglines: seq<LogLine> := [];
      var i := 0;
      while i < |lines|
        invariant 0 <= i <= |lines|
        invariant loglines == Matching(log[..i], q)
        invariant calls == old(calls)
      {
        var thisline := ParseLogLine(lines[i]);
        assert thisline == log[i];
        if thisline.id[..|q|] == q {
          loglines := loglines + [thisline];
        }
        FilterSnoc(log, i, HasPrefix(q));
        i := i + 1;
      }
      assert log[..i] == log;
      var kept := RemoveDeletedActivities(loglines);
      acts := ActivitiesOf(kept);
      calls := calls + [FindCall(q)];
    }
  }

  /** `GetAll`'s scan of the file: each line decoded and applied to
      `foundActivities` in order. */
  method ReplayLines(lines: seq<string>) returns (found: map<string, Activity>)
    requires AllDecodable(lines)
    ensures found == Replay(ParseAll(lines))
  {
    ghost var log := ParseAll(lines);
    found := map[];
    var i := 0;
    while i < |lines|
      invariant 0 <= i <= |lines|
      invariant found == Replay(log[..i])
    {
      var thisline := ParseLogLine(lines[i]);
      assert thisline == log[i];
      found := ApplyLine(found, thisline);
      ReplayStep(log, i);
      i := i + 1;
    }
    assert log[..i] == log;
  }

  /** The body of `GetAll`'s scan: an `ADD` inserts or overwrites, a
      `DELETE` removes. */
  method ApplyLine(found: map<string, Activity>, thisline: LogLine) returns (after: map<string, Activity>)
    ensures after == Apply(found, thisline)
  {
    after := found;
    if thisline.command == AddCommand {
      after := after[thisline.id := thisline.activity];
    }
    if thisline.command == DeleteCommand {
      after := after - {thisline.id};
    }
    ApplyCases(found, thisline);
  }

  /** What `GetAll` returns, the values listed once per key, has as many
      elements as the map has keys and holds exactly the map's values. */
  lemma ValuesEnumerated(acts: seq<Activity>, ids: seq<string>, found: map<string, Activity>)
    requires |acts| == |ids|
    requires forall i, j :: 0 <= i < j < |ids| ==> ids[i] != ids[j]
    requires forall id :: id in ids <==> id in found
    requires forall i :: 0 <= i < |ids| ==> acts[i] == found[ids[i]]
    ensures |acts| == |found.Keys|
    ensures forall a :: a in acts <==> a in found.Values
  {
    DistinctCardinality(ids, found.Keys);
    forall a
      ensures a in acts <==> a in found.Values
    {
      if a in acts {
        var i :| 0 <= i < |acts| && acts[i] == a;
        assert ids[i] in found;
      }
      if a in found.Values {
        var id :| id in found && found[id] == a;
        var i :| 0 <= i < |ids| && ids[i] == id;
        assert acts[i] == a;
      }
    }
  }

  /** The `range` loop over `foundActivities`: every value once, under a
      key that `ids` records, in no particular order. */
  method Values(found: map<string, Activity>) returns (acts: seq<Activity>, ghost ids: seq<string>)
    ensures |acts| == |ids|
    ensures forall i, j :: 0 <= i < j < |ids| ==> ids[i] != ids[j]
    ensures forall id :: id in ids <==> id in found
    ensures forall i :: 0 <= i < |ids| ==> acts[i] == found[ids[i]]
    ensures |acts| == |found.Keys|
    ensures forall a :: a in acts <==> a in found.Values
  {
    acts := [];
    ids := [];
    var rest := found.Keys;
    while rest != {}
      invariant rest <= found.Keys
      invariant |acts| == |ids|
      invariant forall i, j :: 0 <= i < j < |ids| ==> ids[i] != ids[j]
      invariant forall id :: id in ids <==> id in found && id !in rest
      invariant forall i :: 0 <= i < |ids| ==> acts[i] == found[ids[i]]
      decreases rest
    {
      var id :| id in rest;
      acts := acts + [found[id]];
      ids := ids + [id];
      rest := rest - {id};
    }
    ValuesEnumerated(acts, ids, found);
  }

  /** The loop appending each kept record's activity to `output`. */
  method ActivitiesOf(kept: seq<LogLine>) returns (acts: seq<Activity>)
    ensures acts == Activities(kept)
  {
    acts := [];
    var j := 0;
    while j < |kept|
      invariant 0 <= j <= |kept|
      invariant acts == Activities(kept[..j])
    {
      acts := acts + [kept[j].activity];
      j := j + 1;
    }
    assert kept[..j] == kept;
  }

  /** `removeDeletedActivities`: collects the ids of the `DELETE` records,
      then keeps the records whose id is not among them. */
  method RemoveDeletedActivities(input: seq<LogLine>) returns (output: seq<LogLine>)
    ensures output == RemoveDeleted(input)
  {
    var deletedList: seq<string> := [];
    var i := 0;
    while i < |input|
      invariant 0 <= i <= |input|
      invariant deletedList == DeletedList(input[..i])
    {
      if input[i].command == DeleteCommand {
        deletedList := deletedList + [input[i].id];
      }
      assert input[..i + 1][..i] == input[..i];
      i := i + 1;
    }
    assert input[..i] == input;
    output := [];
    var keep := NotIn(DeletedList(input));
    var j := 0;
    while j < |input|
      invariant 0 <= j <= |input|
      invariant output == Filter(input[..j], keep)
    {
      var deleted := StringInSlice(input[j].id, deletedList);
      if !deleted {
        output := output + [input[j]];
      }
      FilterSnoc(input, j, keep);
      j := j + 1;
    }
    assert input[..j] == input;
  }

  /** `stringInSlice`: a linear search. */
  method StringInSlice(a: string, list: seq<string>) returns (found: bool)
    ensures found <==> a in list
  {
    for i := 0 to |list|
      invariant a !in list[..i]
    {
      if list[i] == a {
        return true;
      }
    }
    assert list[..|list|] == list;
    return false;
  }
}
