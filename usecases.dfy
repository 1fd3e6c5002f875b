/** The use cases of `usecases/`: adding an item, listing the activities
    that are due, marking one done and delaying one. Each runs against the
    log store; the store's `calls` trace records which interface calls a
    use case made and in what order. */
module UseCases {
  import opened Basics
  import opened Calendar
  import opened Entities
  import opened LogFormat
  import opened LogStorage
  import opened Sequences
  import opened Strings
  import Sorting

  // ---------------------------------------------------------------------
  // delayTimestamp

  /** The unit names `delayTimestamp` accepts, singular and plural. */
  predicate LegalUnit(unit: string) {
    unit in {"month", "months", "week", "weeks", "day", "days", "hour", "hours", "minute", "minutes"}
  }

  function UnitError(unit: string): string {
    "Unit '" + unit + "' not found. Legal units are 'month','week','day','hour','minute'"
  }

  /** `delayTimestamp`: months and days move the calendar date and keep the
      time of day; weeks are seven days; hours and minutes are durations. */
  function DelayTimestamp(input: Timestamp, count: int, unit: string): (r: Result<Timestamp>)
    ensures r.Ok? <==> LegalUnit(unit)
    ensures r.Err? ==> r.msg == UnitError(unit)
    ensures (unit == "month" || unit == "months") ==>
      var first := FirstOfMonthAfter(input, count);
      && DayNumber(r.value) == DayNumber(first) + input.day - 1
      && r.value.hour == input.hour && r.value.minute == input.minute
    ensures (unit == "week" || unit == "weeks") ==>
      DayNumber(r.value) == DayNumber(input) + 7 * count
      && r.value.hour == input.hour && r.value.minute == input.minute
    ensures (unit == "day" || unit == "days") ==>
      DayNumber(r.value) == DayNumber(input) + count
      && r.value.hour == input.hour && r.value.minute == input.minute
    ensures (unit == "hour" || unit == "hours") ==> Instant(r.value) == Instant(input) + 60 * count
    ensures (unit == "minute" || unit == "minutes") ==> Instant(r.value) == Instant(input) + count
  {
    if unit == "month" || unit == "months" then Ok(AddMonths(input, count))
    else if unit == "week" || unit == "weeks" then Ok(AddDays(input, count * 7))
    else if unit == "day" || unit == "days" then Ok(AddDays(input, count))
    else if unit == "hour" || unit == "hours" then Ok(AddMinutes(input, count * 60))
    else if unit == "minute" || unit == "minutes" then Ok(AddMinutes(input, count))
    else Err(UnitError(unit))
  }

  /** A delay in days is the calendar's day arithmetic. */
  lemma DelayByDays(t: Timestamp, n: int)
    ensures DelayTimestamp(t, n, "day") == Ok(AddDays(t, n))
  {
  }

  /** A delay of `n` weeks is a delay of `7 * n` days. */
  lemma WeekIsSevenDays(t: Timestamp, n: int)
    ensures DelayTimestamp(t, n, "week") == DelayTimestamp(t, 7 * n, "day")
  {
  }

  /** A timestamp is determined by the minute it denotes. */
  lemma InstantInjective(a: Timestamp, b: Timestamp)
    requires Instant(a) == Instant(b)
    ensures a == b
  {
    SameInstant(a, b);
  }

  /** Without daylight saving, a day of calendar arithmetic is 1440 minutes
      of duration. */
  lemma DayIsMinutes(t: Timestamp, n: int)
    ensures DelayTimestamp(t, n, "day") == DelayTimestamp(t, 1440 * n, "minute")
  {
    InstantInjective(DelayTimestamp(t, n, "day").value, DelayTimestamp(t, 1440 * n, "minute").value);
  }

  /** Two delays by a unit other than months are one delay by the sum. */
  lemma DelaysAdd(t: Timestamp, m: int, n: int, unit: string)
    requires LegalUnit(unit) && unit != "month" && unit != "months"
    ensures DelayTimestamp(DelayTimestamp(t, m, unit).value, n, unit) == DelayTimestamp(t, m + n, unit)
  {
    var once := DelayTimestamp(t, m, unit).value;
    InstantInjective(DelayTimestamp(once, n, unit).value, DelayTimestamp(t, m + n, unit).value);
  }

  /** A delay by zero of any legal unit changes nothing. */
  lemma DelayByZero(t: Timestamp, unit: string)
    requires LegalUnit(unit)
    ensures DelayTimestamp(t, 0, unit) == Ok(t)
  {
    if unit == "month" || unit == "months" {
      assert FirstOfMonthAfter(t, 0) == t.(day := 1);
    } else {
      InstantInjective(DelayTimestamp(t, 0, unit).value, t);
    }
  }

  /** A positive delay of any legal unit moves the activity later. */
  lemma DelayIsLater(t: Timestamp, count: int, unit: string)
    requires LegalUnit(unit) && count > 0
    ensures Before(t, DelayTimestamp(t, count, unit).value)
  {
    var r := DelayTimestamp(t, count, unit).value;
    if unit == "month" || unit == "months" {
      var first := FirstOfMonthAfter(t, count);
      var start := t.(day := 1);
      assert FieldsBefore(start, first);
      FieldsBeforeImpliesBefore(start, first);
    }
  }

  // ---------------------------------------------------------------------
  // Resolving an id

  function NotFoundMessage(id: string): string {
    "No activities found with index " + id + "\n"
  }

  /** One line of the ambiguity listing. */
  function IndexedLine(a: Activity): string {
    IndexedString(a) + "\n"
  }

  const AmbiguousHeader: string := "Ambiguous ID matches:\n"
  const AmbiguousTrailer: string := "\nNothing has been deleted. You may try again.\n"

  /** The message for several matches: every match on a line of its own,
      in the order `FindActivity` returned them (`FramedConcatContains`
      locates each line). */
  function AmbiguousMessage(found: seq<Activity>): string {
    AmbiguousHeader + Concat(found, IndexedLine) + AmbiguousTrailer
  }

  /** The error both use cases return when the id does not name exactly one
      activity. */
  function FindError(id: string, found: seq<Activity>): string
    requires |found| != 1
  {
    if |found| == 0 then NotFoundMessage(id) else AmbiguousMessage(found)
  }

  /** The buffer loop that writes the ambiguity message. */
  method WriteAmbiguous(found: seq<Activity>) returns (msg: string)
    ensures msg == AmbiguousMessage(found)
  {
    var listing := "";
    for i := 0 to |found|
      invariant listing == Concat(found[..i], IndexedLine)
    {
      ConcatSnoc(found, i, IndexedLine);
      listing := listing + IndexedLine(found[i]);
    }
    assert found[..|found|] == found;
    msg := AmbiguousHeader + listing + AmbiguousTrailer;
  }

  /** The opening shared by `MarkActivityAsDone` and `DelayActivity`: asks
      the store for the id and accepts only a single match. */
  method FindSingle(id: string, store: Logfile) returns (r: Result<Activity>)
    requires store.Readable() && LongIds(store.Log(), id)
    modifies store`calls
    ensures store.calls == old(store.calls) + [FindCall(id)]
    ensures var found := FindSpec(store.Log(), id);
      && (|found| == 1 <==> r.Ok?)
      && (|found| == 1 ==> r.value == found[0])
      && (|found| != 1 ==> r.msg == FindError(id, found))
  {
    var activities := store.FindActivity(id);
    if |activities| == 0 {
      return Err(NotFoundMessage(id));
    }
    if |activities| > 1 {
      var msg := WriteAmbiguous(activities);
      return Err(msg);
    }
    return Ok(activities[0]);
  }

  // ---------------------------------------------------------------------
  // The use cases

  /** `AddItem`: stores the activity and returns its short id. */
  method AddItem(cmd: Activity, store: Logfile, now: Clock) returns (id: string)
    modifies store`lines, store`calls
    ensures store.lines == old(store.lines) + [LogText(Record(store.sha, AddCommand, cmd, now))]
    ensures store.calls == old(store.calls) + [AddCall(cmd)]
    ensures |id| == IdxLength && id == store.sha(String(cmd))[..IdxLength]
  {
    id := store.AddNew(cmd, now);
  }

  /** A permutation has the same length and the same elements. */
  lemma SameElements(s: seq<Activity>, t: seq<Activity>)
    requires multiset(s) == multiset(t)
    ensures |s| == |t| && forall a :: a in s <==> a in t
  {
    assert |s| == |multiset(s)| && |t| == |multiset(t)|;
    forall a
      ensures a in s <==> a in t
    {
      assert a in s <==> a in multiset(s);
      assert a in t <==> a in multiset(t);
    }
  }

  /** In the `(timestamp, body)` order an activity that is not yet due is
      followed only by activities that are not due either, so the loop that
      stops at the first of them keeps every due activity. */
  lemma NotDueAfter(sorted: seq<Activity>, now: Clock, k: int)
    requires Sorting.SortedBy(sorted, Less)
    requires 0 <= k < |sorted| && Before(now.stamp, sorted[k].timestamp)
    ensures forall i :: k <= i < |sorted| ==> Before(now.stamp, sorted[i].timestamp)
  {
    forall i | k < i < |sorted|
      ensures Before(now.stamp, sorted[i].timestamp)
    {
      assert !Less(sorted[i], sorted[k]);
    }
  }

  /** The sorting step of `GetActivity`: the activities copied into a
      slice and sorted with `ByTime`. */
  method SortedActivities(acts: seq<Activity>) returns (sorted: seq<Activity>)
    ensures Sorting.SortedBy(sorted, Less)
    ensures multiset(sorted) == multiset(acts)
  {
    var activities := new Activity[|acts|](i requires 0 <= i < |acts| => acts[i]);
    assert activities[..] == acts;
    Sort(activities);
    sorted := activities[..];
  }

  /** The printing loop of `GetActivity`: the listing form of each sorted
      activity in turn, stopping at the first one that is not yet due. */
  method DueLines(sorted: seq<Activity>, now: Clock) returns (output: seq<string>)
    requires Sorting.SortedBy(sorted, Less)
    ensures |output| <= |sorted|
    ensures forall i :: 0 <= i < |output| ==> output[i] == IndexedString(sorted[i])
    ensures forall i :: 0 <= i < |sorted| ==> (i < |output| <==> !Before(now.stamp, sorted[i].timestamp))
  {
    output := [];
    var i := 0;
    while i < |sorted|
      invariant 0 <= i <= |sorted|
      invariant |output| == i
      invariant forall k :: 0 <= k < i ==> output[k] == IndexedString(sorted[k])
      invariant forall k :: 0 <= k < i ==> !Before(now.stamp, sorted[k].timestamp)
    {
      if Before(now.stamp, sorted[i].timestamp) {
        break;
      }
      output := output + [IndexedString(sorted[i])];
      i := i + 1;
    }
    if i < |sorted| {
      NotDueAfter(sorted, now, i);
    }
  }

  /** `GetActivity`: the listing forms, in `(timestamp, body)` order, of
      the activities `GetAll` holds that are due at `now`; `acts` and `ids`
      are the values and keys `GetAll` listed, and `sorted` is the sorted
      slice the loop walks, a permutation of `acts`. */
  method GetActivity(store: Logfile, now: Clock)
    returns (output: seq<string>, ghost sorted: seq<Activity>, ghost acts: seq<Activity>, ghost ids: seq<string>)
    requires store.Readable()
    modifies store`calls
    ensures store.calls == old(store.calls) + [GetAllCall]
    ensures |acts| == |ids|
    ensures forall i, j :: 0 <= i < j < |ids| ==> ids[i] != ids[j]
    ensures forall id :: id in ids <==> id in Replay(store.Log())
    ensures forall i :: 0 <= i < |ids| ==> acts[i] == Replay(store.Log())[ids[i]]
    ensures multiset(sorted) == multiset(acts)
    ensures |sorted| == |Replay(store.Log()).Keys|
    ensures forall a :: a in sorted <==> a in Replay(store.Log()).Values
    ensures Sorting.SortedBy(sorted, Less)
    ensures |output| <= |sorted|
    ensures forall i :: 0 <= i < |output| ==> output[i] == IndexedString(sorted[i])
    ensures forall i :: 0 <= i < |sorted| ==> (i < |output| <==> !Before(now.stamp, sorted[i].timestamp))
  {
    var values, keys := store.GetAll();
    acts, ids := values, keys;
    var ordered := SortedActivities(values);
    SameElements(values, ordered);
    output := DueLines(ordered, now);
    sorted := ordered;
  }

  lemma Trace2<T>(s: seq<T>, x: T, y: T)
    ensures s + [x] + [y] == s + [x, y]
  {
  }

  lemma Trace3<T>(s: seq<T>, x: T, y: T, z: T)
    ensures s + [x] + [y] + [z] == s + [x, y, z]
  {
  }

  /** `MarkActivityAsDone`: with a single match, writes a `DELETE` of it;
      otherwise returns the error and writes nothing. */
  method MarkActivityAsDone(id: string, store: Logfile, now: Clock) returns (err: Option<string>)
    requires store.Readable() && LongIds(store.Log(), id)
    modifies store`lines, store`calls
    ensures var found := old(FindSpec(store.Log(), id));
      && (|found| != 1 ==>
            && err == Some(FindError(id, found))
            && store.lines == old(store.lines)
            && store.calls == old(store.calls) + [FindCall(id)])
      && (|found| == 1 ==>
            && err.None?
            && store.lines == old(store.lines) + [LogText(Record(store.sha, DeleteCommand, found[0], now))]
            && store.calls == old(store.calls) + [FindCall(id), DeleteCall(found[0])])
  {
    var single := FindSingle(id, store);
    if single.Err? {
      return Some(single.msg);
    }
    store.Delete(single.value, now);
    Trace2(old(store.calls), FindCall(id), DeleteCall(single.value));
    return None;
  }

  /** The activity `DelayActivity` adds: the same tag and body at the new
      time, with no id. */
  function Moved(a: Activity, t: Timestamp): (b: Activity)
    ensures String(b) == Format(t) + " " + a.body && b.commandTag == a.commandTag
  {
    Activity("", t, a.commandTag, a.body)
  }

  /** `DelayActivity`: with a single match and a legal unit, writes a
      `DELETE` of the match and then an `ADD` of it moved by the delay;
      otherwise returns the error and writes nothing. */
  method DelayActivity(id: string, count: int, unit: string, store: Logfile, now: Clock)
    returns (err: Option<string>)
    requires store.Readable() && LongIds(store.Log(), id)
    modifies store`lines, store`calls
    ensures var found := old(FindSpec(store.Log(), id));
      |found| != 1 ==>
        && err == Some(FindError(id, found))
        && store.lines == old(store.lines)
        && store.calls == old(store.calls) + [FindCall(id)]
    ensures var found := old(FindSpec(store.Log(), id));
      |found| == 1 && !LegalUnit(unit) ==>
        && err == Some(UnitError(unit))
        && store.lines == old(store.lines)
        && store.calls == old(store.calls) + [FindCall(id)]
    ensures var found := old(FindSpec(store.Log(), id));
      |found| == 1 && LegalUnit(unit) ==>
        var moved := Moved(found[0], DelayTimestamp(found[0].timestamp, count, unit).value);
        && err.None?
        && store.lines == old(store.lines) + [LogText(Record(store.sha, DeleteCommand, found[0], now)),
                                              LogText(Record(store.sha, AddCommand, moved, now))]
        && store.calls == old(store.calls) + [FindCall(id), DeleteCall(found[0]), AddCall(moved)]
  {
    var single := FindSingle(id, store);
    if single.Err? {
      return Some(single.msg);
    }
    var thisActivity := single.value;
    var newtimestamp := DelayTimestamp(thisActivity.timestamp, count, unit);
    if newtimestamp.Err? {
      return Some(newtimestamp.msg);
    }
    var moved := Moved(thisActivity, newtimestamp.value);
    ghost var lines0 := store.lines;
    store.Delete(thisActivity, now);
    var _ := store.AddNew(moved, now);
    Trace3(old(store.calls), FindCall(id), DeleteCall(thisActivity), AddCall(moved));
    Trace2(lines0, LogText(Record(store.sha, DeleteCommand, thisActivity, now)),
           LogText(Record(store.sha, AddCommand, moved, now)));
    return None;
  }

  /** After `MarkActivityAsDone` succeeds on a consistent log, the
      replayed map loses exactly the digest of the single match, a digest
      that starts with the id the user gave. */
  lemma DoneEffect(lines: seq<string>, sha: Hasher, id: string, now: Clock)
    requires AllDecodable(lines) && Consistent(ParseAll(lines), sha)
    requires |FindSpec(ParseAll(lines), id)| == 1
    requires Storable(FindSpec(ParseAll(lines), id)[0], now)
    ensures var a := FindSpec(ParseAll(lines), id)[0];
      var after := lines + [LogText(Record(sha, DeleteCommand, a, now))];
      && AllDecodable(after)
      && Replay(ParseAll(after)) == Replay(ParseAll(lines)) - {sha(String(a))}
      && StartsWith(sha(String(a)), id)
  {
    ParsedBlankUnmatched(lines);
    UniqueMatchDigest(ParseAll(lines), sha, id);
    DeleteEffect(lines, sha, FindSpec(ParseAll(lines), id)[0], now);
  }

  /** After `DelayActivity` succeeds, the replayed map has lost the digest
      of the match and holds the moved activity, as read back, under its
      own digest. */
  lemma DelayEffect(lines: seq<string>, sha: Hasher, a: Activity, moved: Activity, now: Clock)
    requires AllDecodable(lines) && Storable(a, now) && Storable(moved, now)
    ensures var del := Record(sha, DeleteCommand, a, now);
      var add := Record(sha, AddCommand, moved, now);
      var after := lines + [LogText(del), LogText(add)];
      && AllDecodable(after)
      && Replay(ParseAll(after)) == (Replay(ParseAll(lines)) - {del.id})[add.id := ReadBack(add)]
  {
    var del := Record(sha, DeleteCommand, a, now);
    var add := Record(sha, AddCommand, moved, now);
    DeleteEffect(lines, sha, a, now);
    var mid := lines + [LogText(del)];
    AddNewEffect(mid, sha, moved, now);
    Trace2(lines, LogText(del), LogText(add));
  }

  /** `DelayActivityOneDay`: a delay of one day, which never fails on the
      unit. */
  method DelayActivityOneDay(id: string, store: Logfile, now: Clock) returns (err: Option<string>)
    requires store.Readable() && LongIds(store.Log(), id)
    modifies store`lines, store`calls
    ensures var found := old(FindSpec(store.Log(), id));
      && (|found| != 1 ==>
            && err == Some(FindError(id, found))
            && store.lines == old(store.lines)
            && store.calls == old(store.calls) + [FindCall(id)])
      && (|found| == 1 ==>
            var moved := Moved(found[0], AddDays(found[0].timestamp, 1));
            && err.None?
            && store.lines == old(store.lines) + [LogText(Record(store.sha, DeleteCommand, found[0], now)),
                                                  LogText(Record(store.sha, AddCommand, moved, now))]
            && store.calls == old(store.calls) + [FindCall(id), DeleteCall(found[0]), AddCall(moved)])
  {
    ghost var found := FindSpec(store.Log(), id);
    if |found| == 1 {
      DelayByDays(found[0].timestamp, 1);
    }
    err := DelayActivity(id, 1, "day", store, now);
  }
}
