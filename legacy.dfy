/** The single-file predecessor `activity.go`: activities without ids, read
    line by line from a reader, ordered by timestamp alone, and rendered
    with two spaces between timestamp and body. */
module Legacy {
  import opened Basics
  import opened Strings
  import opened Calendar
  import Entities
  import Sorting
  import Sequences

  /** The legacy `OneActivity`: no id. */
  datatype LegacyActivity = LegacyActivity(timestamp: Timestamp, commandTag: string, body: string)

  /** `ParseOneActivity` of `activity.go`: the same fixed-width split as the
      entity parser, producing the record without an id. */
  function ParseOneActivity(input: string): (r: Result<LegacyActivity>)
    requires Entities.SliceSafe(input)
    ensures r.Ok? <==> Entities.ParseOneActivity(input).Ok?
    ensures r.Ok? ==> var e := Entities.ParseOneActivity(input).value;
      r.value == LegacyActivity(e.timestamp, e.commandTag, e.body)
  {
    match Entities.ParseOneActivity(input)
    case Ok(e) => Ok(LegacyActivity(e.timestamp, e.commandTag, e.body))
    case Err(msg) => Err(msg)
  }

  /** The legacy rendering: timestamp, two spaces, body. */
  function String(a: LegacyActivity): string {
    Format(a.timestamp) + "  " + a.body
  }

  /** Reading back the legacy rendering keeps the timestamp but the body
      gains the second space as its first character, and no tag is ever
      split off. */
  lemma ParseString(a: LegacyActivity)
    requires 0 <= a.timestamp.year < 10000
    ensures ParseOneActivity(String(a)) == Ok(LegacyActivity(a.timestamp, "", " " + a.body))
  {
    var input := String(a);
    Rendering(Format(a.timestamp), a.body);
    ParseFormat(a.timestamp);
  }

  /** The legacy rendering's stamp, and the text after it, which starts
      with a space and so never holds the marker. */
  lemma Rendering(stamp: string, body: string)
    requires |stamp| == 16
    ensures var input := stamp + "  " + body;
      && input[..16] == stamp && input[17..] == " " + body && !Entities.SplitsTag(input)
  {
    var input := stamp + "  " + body;
    assert input[..16] == stamp;
    assert input[17..] == " " + body;
    if |input| > 23 {
      assert input[17..23][0] == ' ';
    }
  }

  // ---------------------------------------------------------------------
  // Reading lines

  /** The concatenation of a sequence of lines. */
  function Join(lines: seq<string>): string {
    if |lines| == 0 then "" else lines[0] + Join(lines[1..])
  }

  /** The lines `ReadString('\n')` delivers without error: each ends with
      its newline, and a final piece with no newline is not among them. */
  function CompleteLines(s: string): seq<string>
    decreases |s|
  {
    var k := IndexOf(s, '\n');
    if k < 0 then [] else [s[..k + 1]] + CompleteLines(s[k + 1..])
  }

  /** A line as `ReadString('\n')` delivers it: ends with its newline
      and holds no other. */
  predicate IsLine(line: string) {
    |line| > 0 && line[|line| - 1] == '\n' && forall j :: 0 <= j < |line| - 1 ==> line[j] != '\n'
  }

  lemma {:induction false} CompleteLinesShape(s: string)
    ensures forall i :: 0 <= i < |CompleteLines(s)| ==> IsLine(CompleteLines(s)[i])
    decreases |s|
  {
    var k := IndexOf(s, '\n');
    if k >= 0 {
      var r := CompleteLines(s);
      var tail := CompleteLines(s[k + 1..]);
      assert r == [s[..k + 1]] + tail;
      CompleteLinesShape(s[k + 1..]);
      forall i | 0 <= i < |r|
        ensures IsLine(r[i])
      {
        if i == 0 {
          assert r[0] == s[..k + 1];
        } else {
          assert r[i] == tail[i - 1];
        }
      }
    }
  }

  /** The lines are the input up to its last newline, and nothing after
      that newline is a newline. */
  lemma {:induction false} CompleteLinesJoin(s: string)
    ensures var j := Join(CompleteLines(s));
      |j| <= |s| && j == s[..|j|] && '\n' !in s[|j|..]
    decreases |s|
  {
    var k := IndexOf(s, '\n');
    if k < 0 {
      assert Join(CompleteLines(s)) == "";
      assert s[0..] == s;
    } else {
      var rest := CompleteLines(s[k + 1..]);
      var j := Join(rest);
      assert Join(CompleteLines(s)) == s[..k + 1] + j by {
        assert CompleteLines(s) == [s[..k + 1]] + rest;
        assert ([s[..k + 1]] + rest)[1..] == rest;
      }
      assert |j| <= |s[k + 1..]| && j == s[k + 1..][..|j|] && '\n' !in s[k + 1..][|j|..] by {
        CompleteLinesJoin(s[k + 1..]);
      }
      Sequences.SliceSplit(s, k + 1, |j|);
    }
  }

  /** The first line ends at the first newline. */
  lemma CompleteLinesAt(u: string, k: int)
    requires 0 <= k < |u| && u[k] == '\n' && '\n' !in u[..k]
    ensures CompleteLines(u) == [u[..k + 1]] + CompleteLines(u[k + 1..])
  {
    IndexOfAt(u, '\n', k);
  }

  /** The first line of `s + t` is the first line of `s` when `s` holds a
      newline. */
  lemma CompleteLinesFirst(s: string, t: string)
    requires 0 <= IndexOf(s, '\n')
    ensures var k := IndexOf(s, '\n');
      && CompleteLines(s) == [s[..k + 1]] + CompleteLines(s[k + 1..])
      && CompleteLines(s + t) == [s[..k + 1]] + CompleteLines(s[k + 1..] + t)
  {
    var k := IndexOf(s, '\n');
    Sequences.AppendSlices(s, t, k);
    Sequences.AppendSlices(s, t, k + 1);
    CompleteLinesAt(s, k);
    CompleteLinesAt(s + t, k);
  }

  /** Text after the last newline never yields a line. */
  lemma {:induction false} CompleteLinesDropPartial(s: string, t: string)
    requires |s| == 0 || s[|s| - 1] == '\n'
    requires '\n' !in t
    ensures CompleteLines(s + t) == CompleteLines(s)
    decreases |s|
  {
    if |s| == 0 {
      assert s + t == t;
      IndexOfAbsent(t, '\n');
    } else {
      var k := IndexOf(s, '\n');
      assert 0 <= k by { assert s[|s| - 1] == '\n'; }
      var u := s[k + 1..];
      assert CompleteLines(u + t) == CompleteLines(u) by {
        assert |u| == 0 || u[|u| - 1] == '\n';
        CompleteLinesDropPartial(u, t);
      }
      CompleteLinesFirst(s, t);
    }
  }

  /** Every line is safe for the parser's slices. */
  predicate AllSliceSafe(lines: seq<string>) {
    forall i :: 0 <= i < |lines| ==> Entities.SliceSafe(lines[i])
  }

  /** The activities of the lines that parse, in line order. */
  function ParsedActivities(lines: seq<string>): seq<LegacyActivity>
    requires AllSliceSafe(lines)
  {
    if |lines| == 0 then []
    else
      var tail := ParsedActivities(lines[1..]);
      match ParseOneActivity(lines[0])
      case Ok(a) => [a] + tail
      case Err(_) => tail
  }

  /** Reading two blocks of lines yields the activities of the first
      block followed by those of the second. */
  lemma {:induction false} ParsedActivitiesAppend(xs: seq<string>, ys: seq<string>)
    requires AllSliceSafe(xs) && AllSliceSafe(ys)
    ensures AllSliceSafe(xs + ys)
    ensures ParsedActivities(xs + ys) == ParsedActivities(xs) + ParsedActivities(ys)
  {
    if |xs| > 0 {
      assert (xs + ys)[1..] == xs[1..] + ys;
      ParsedActivitiesAppend(xs[1..], ys);
    } else {
      assert xs + ys == ys;
    }
  }

  /** One line yields its activity when it parses and nothing otherwise. */
  lemma ParsedActivitiesSingle(line: string)
    requires Entities.SliceSafe(line)
    ensures AllSliceSafe([line])
    ensures ParsedActivities([line]) == if ParseOneActivity(line).Ok? then [ParseOneActivity(line).value] else []
  {
    assert [line][1..] == [];
  }

  lemma ConsSliceSafe(line: string, tail: seq<string>)
    requires AllSliceSafe([line] + tail)
    ensures Entities.SliceSafe(line) && AllSliceSafe(tail)
  {
    assert ([line] + tail)[0] == line;
    forall i | 0 <= i < |tail|
      ensures Entities.SliceSafe(tail[i])
    {
      assert tail[i] == ([line] + tail)[i + 1];
    }
  }

  /** Reading the first line of `rest` and then the lines after it. */
  lemma ReadStep(rest: string)
    requires IndexOf(rest, '\n') >= 0 && AllSliceSafe(CompleteLines(rest))
    ensures var k := IndexOf(rest, '\n');
      && Entities.SliceSafe(rest[..k + 1])
      && AllSliceSafe(CompleteLines(rest[k + 1..]))
      && ParsedActivities(CompleteLines(rest))
         == ParsedActivities([rest[..k + 1]]) + ParsedActivities(CompleteLines(rest[k + 1..]))
  {
    var k := IndexOf(rest, '\n');
    var tail := CompleteLines(rest[k + 1..]);
    assert CompleteLines(rest) == [rest[..k + 1]] + tail;
    ConsSliceSafe(rest[..k + 1], tail);
    ParsedActivitiesSingle(rest[..k + 1]);
    ParsedActivitiesAppend([rest[..k + 1]], tail);
  }

  /** `bufferedReaderToActivities`: reads newline-terminated lines and
      keeps, in order, the activities of those that parse. */
  method BufferedReaderToActivities(input: string) returns (output: seq<LegacyActivity>)
    requires AllSliceSafe(CompleteLines(input))
    ensures output == ParsedActivities(CompleteLines(input))
  {
    output := [];
    var rest := input;
    ghost var total := ParsedActivities(CompleteLines(input));
    while true
      invariant AllSliceSafe(CompleteLines(rest))
      invariant total == output + ParsedActivities(CompleteLines(rest))
      decreases |rest|
    {
      var k := IndexOf(rest, '\n');
      if k < 0 {
        break;
      }
      var line := rest[..k + 1];
      ReadStep(rest);
      ParsedActivitiesSingle(line);
      ghost var later := ParsedActivities(CompleteLines(rest[k + 1..]));
      ghost var first := ParsedActivities([line]);
      var parsed := ParseOneActivity(line);
      Sequences.AppendAssoc(output, first, later);
      if parsed.Ok? {
        output := output + [parsed.value];
      } else {
        assert output + first == output;
      }
      rest := rest[k + 1..];
    }
  }

  // ---------------------------------------------------------------------
  // Ordering, filtering, rendering

  /** The legacy `ByTime.Less`: timestamps only. */
  predicate Less(x: LegacyActivity, y: LegacyActivity) {
    Before(x.timestamp, y.timestamp)
  }

  /** Activities are unordered by the legacy `Less` exactly when their
      timestamps are equal, whatever their bodies. */
  lemma LessTies(x: LegacyActivity, y: LegacyActivity)
    ensures !Less(x, y) && !Less(y, x) <==> x.timestamp == y.timestamp
  {
    if !Less(x, y) && !Less(y, x) {
      Entities.SameInstant(x.timestamp, y.timestamp);
    }
  }

  lemma LessIsStrictWeakOrder()
    ensures Sorting.StrictWeakOrder(Less)
  {
  }

  /** The legacy `sort`: in place, by timestamp, keeping the elements;
      the relative order of equal timestamps is not fixed. */
  method Sort(a: array<LegacyActivity>)
    modifies a
    ensures Sorting.SortedBy(a[..], Less)
    ensures multiset(a[..]) == old(multiset(a[..]))
  {
    LessIsStrictWeakOrder();
    Sorting.InsertionSort(a, Less);
  }

  /** The legacy `onlyThoseBefore`: the prefix ending at the last activity
      strictly before the cutoff, or empty. */
  function OnlyThoseBefore(s: seq<LegacyActivity>, cutoff: Timestamp): (r: seq<LegacyActivity>)
    ensures |r| <= |s| && r == s[..|r|]
    ensures |r| > 0 ==> Before(r[|r| - 1].timestamp, cutoff)
    ensures forall i :: |r| <= i < |s| ==> !Before(s[i].timestamp, cutoff)
  {
    Sequences.TrimAfterLast(s, (a: LegacyActivity) => Before(a.timestamp, cutoff))
  }

  /** After the legacy sort, `onlyThoseBefore` keeps exactly the activities
      strictly before the cutoff. */
  lemma OnlyThoseBeforeSorted(s: seq<LegacyActivity>, cutoff: Timestamp)
    requires Sorting.SortedBy(s, Less)
    ensures var r := OnlyThoseBefore(s, cutoff);
      forall i :: 0 <= i < |s| ==> (i < |r| <==> Before(s[i].timestamp, cutoff))
  {
  }

  /** The legacy `Activities.String`: renderings, last activity first. */
  method ListString(s: seq<LegacyActivity>) returns (r: string)
    ensures r == Sequences.ConcatReversed(s, String)
  {
    r := Sequences.WriteReversed(s, String);
  }
}
