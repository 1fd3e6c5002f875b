/** The activity record of `entities/activities.go`: its renderings, the
    fixed-width parser of "YYYY-MM-DD HH:MM [@rtask:<tag> ]<body>", the
    `(timestamp, body)` order with the in-place sort, and the prefix
    filter `onlyThoseBefore`. */
module Entities {
  import opened Basics
  import opened Strings
  import opened Calendar
  import Sorting
  import Sequences

  /** `OneActivity`. `id` is empty except on activities read back from the
      log, where it holds the first three digits of the line's digest. */
  datatype Activity = Activity(id: string, timestamp: Timestamp, commandTag: string, body: string)

  /** Go's zero `OneActivity{}`. */
  const ZeroActivity: Activity := Activity("", Zero, "", "")

  // ---------------------------------------------------------------------
  // Renderings

  function TimeString(a: Activity): string {
    Format(a.timestamp)
  }

  /** The canonical form that the log digests: the recurrence tag is not
      part of it. */
  function String(a: Activity): string {
    TimeString(a) + " " + a.body
  }

  predicate HasRepeatCommand(a: Activity) {
    a.commandTag != ""
  }

  function FullString(a: Activity): string {
    TimeString(a) + " " + a.commandTag + " " + a.body
  }

  /** The ANSI sequences that switch bold on and off around the id. */
  const BoldOn: string := "\U{1B}[1m"
  const BoldOff: string := "\U{1B}[0m"

  function IdLabel(a: Activity): string {
    "[" + BoldOn + a.id + BoldOff + "]"
  }

  /** The listing form. */
  function IndexedString(a: Activity): string {
    var star := if HasRepeatCommand(a) then "*" else "";
    IdLabel(a) + star + " " + TimeString(a) + " " + a.body
  }

  /** The listing form is the bold id in brackets, a star exactly for
      activities with a recurrence tag, a space, then the canonical form. */
  lemma IndexedStringShape(a: Activity)
    ensures var r := IndexedString(a);
      && |r| > |IdLabel(a)| && r[..|IdLabel(a)|] == IdLabel(a)
      && (r[|IdLabel(a)|] == '*' <==> HasRepeatCommand(a))
      && |r| > |String(a)| && r[|r| - |String(a)|..] == String(a)
      && r[|r| - |String(a)| - 1] == ' '
  {
    var star := if HasRepeatCommand(a) then "*" else "";
    assert IndexedString(a) == IdLabel(a) + star + " " + String(a);
  }

  // ---------------------------------------------------------------------
  // Parsing

  /** The slices `input[0:16]` and, once the timestamp parsed,
      `input[17:]` are in range; Go panics otherwise. */
  predicate SliceSafe(input: string) {
    |input| >= 17 || (|input| == 16 && Parse(input[..16]).None?)
  }

  /** The recurrence marker is present and a space follows it: the case in
      which a tag is split off. */
  predicate SplitsTag(input: string) {
    |input| > 23 && input[17..23] == "@rtask" && ' ' in input[24..]
  }

  /** The text after the timestamp is the marker, the tag, the space and
      the body. */
  lemma TagSplit(input: string, spaceIndex: nat)
    requires 24 <= spaceIndex < |input| && input[spaceIndex] == ' '
    ensures input[17..] == input[17..24] + input[24..spaceIndex] + " " + input[spaceIndex + 1..]
  {
  }

  /** `ParseOneActivity`: the first sixteen characters are the timestamp;
      when `input[17:23]` is "@rtask" and a space follows at index 24 or
      later, the text from 24 up to the first such space is the tag and the
      rest after it the body; otherwise everything from 17 on is the body. */
  function ParseOneActivity(input: string): (r: Result<Activity>)
    requires SliceSafe(input)
    ensures r.Ok? <==> Parse(input[..16]).Some?
    ensures r.Ok? ==> r.value.id == "" && r.value.timestamp == Parse(input[..16]).value
    ensures r.Ok? && SplitsTag(input) ==>
      && ' ' !in r.value.commandTag
      && input[17..] == input[17..24] + r.value.commandTag + " " + r.value.body
    ensures r.Ok? && !SplitsTag(input) ==> r.value.commandTag == "" && r.value.body == input[17..]
  {
    var t := input[..16];
    match Parse(t)
    case None => Err("parsing time \"" + t + "\" as \"2006-01-02 15:04\"")
    case Some(stamp) =>
      if |input| > 23 && input[17..23] == "@rtask" then
        var spaceIndex := IndexOf(input[24..], ' ') + 24;
        if spaceIndex > 23 then
          TagSplit(input, spaceIndex);
          Ok(Activity("", stamp, input[24..spaceIndex], input[spaceIndex + 1..]))
        else
          Ok(Activity("", stamp, "", input[17..]))
      else
        Ok(Activity("", stamp, "", input[17..]))
  }

  /** A body that, written after a timestamp, would be read back as a tag
      and a shorter body. */
  predicate BodySplits(body: string) {
    |body| > 6 && body[..6] == "@rtask" && ' ' in body[7..]
  }

  /** Reading back the canonical form of an activity whose body splits
      gives the same timestamp but a shorter body, so another canonical
      form. */
  lemma ParseSplitString(a: Activity)
    requires 0 <= a.timestamp.year < 10000 && BodySplits(a.body)
    ensures var r := ParseOneActivity(String(a));
      && r.Ok? && r.value.timestamp == a.timestamp && |r.value.body| < |a.body|
      && a.body[|a.body| - |r.value.body|..] == r.value.body
      && String(r.value) != String(a)
  {
    var input := String(a);
    assert input[..16] == TimeString(a);
    ParseFormat(a.timestamp);
    assert input[17..] == a.body;
    assert input[17..23] == a.body[..6] && input[24..] == a.body[7..];
  }

  /** Reading back the canonical form recovers the timestamp and the body;
      the tag and the id are not part of it. */
  lemma ParseString(a: Activity)
    requires 0 <= a.timestamp.year < 10000 && !BodySplits(a.body)
    ensures ParseOneActivity(String(a)) == Ok(Activity("", a.timestamp, "", a.body))
  {
    var input := String(a);
    assert input[..16] == TimeString(a);
    ParseFormat(a.timestamp);
    assert input[17..] == a.body;
    if |input| > 23 {
      assert input[17..23] == a.body[..6];
      assert input[24..] == a.body[7..];
    }
  }

  /** The canonical form with a one-digit hour after two spaces, as in
      `2024-01-02  9:05 call mum`, is read as the canonical form is. */
  lemma ParseShortHourActivity(a: Activity)
    requires 0 <= a.timestamp.year < 10000 && a.timestamp.hour < 10 && !BodySplits(a.body)
    ensures var t := String(a);
      ParseOneActivity(t[..11] + " " + t[12..]) == Ok(Activity("", a.timestamp, "", a.body))
  {
    var t := String(a);
    var f := TimeString(a);
    var input := t[..11] + " " + t[12..];
    assert input[..16] == f[..11] + " " + f[12..] by {
      assert t[..16] == f;
    }
    ParseShortHour(a.timestamp);
    assert input[17..] == a.body;
    if |input| > 23 {
      assert input[17..23] == a.body[..6];
      assert input[24..] == a.body[7..];
    }
  }

  /** The canonical form determines the timestamp and the body, so equal
      digests of it come from equal `(timestamp, body)` pairs. */
  lemma StringDeterminesFields(a: Activity, b: Activity)
    requires 0 <= a.timestamp.year < 10000 && 0 <= b.timestamp.year < 10000
    requires String(a) == String(b)
    ensures a.timestamp == b.timestamp && a.body == b.body
  {
    ParseFormat(a.timestamp);
    ParseFormat(b.timestamp);
    assert String(a)[..16] == TimeString(a);
    assert String(b)[..16] == TimeString(b);
    assert a.body == String(a)[17..];
    assert b.body == String(b)[17..];
  }

  /** A word free of spaces ends at the first space of "word rest". */
  lemma SplitAtFirstSpace(t1: string, b1: string, t2: string, b2: string)
    requires ' ' !in t1 && ' ' !in t2
    requires t1 + " " + b1 == t2 + " " + b2
    ensures t1 == t2 && b1 == b2
  {
    var s := t1 + " " + b1;
    assert s[..|t1|] == t1 && s[|t1|] == ' ';
    assert s[..|t2|] == t2 && s[|t2|] == ' ';
    var k := IndexOf(s, ' ');
    assert k == |t1| && k == |t2|;
    assert b1 == s[|t1| + 1..];
    assert b2 == s[|t2| + 1..];
  }

  /** With a tag free of spaces, the full form determines the timestamp,
      the tag and the body. */
  lemma FullStringDeterminesFields(a: Activity, b: Activity)
    requires 0 <= a.timestamp.year < 10000 && 0 <= b.timestamp.year < 10000
    requires ' ' !in a.commandTag && ' ' !in b.commandTag
    requires FullString(a) == FullString(b)
    ensures a.timestamp == b.timestamp && a.commandTag == b.commandTag && a.body == b.body
  {
    ParseFormat(a.timestamp);
    ParseFormat(b.timestamp);
    var ra, rb := " " + a.commandTag + " " + a.body, " " + b.commandTag + " " + b.body;
    Sequences.Reassoc5(TimeString(a), " ", a.commandTag, " ", a.body);
    Sequences.Reassoc5(TimeString(b), " ", b.commandTag, " ", b.body);
    Sequences.EqualHeads(TimeString(a), ra, TimeString(b), rb);
    Sequences.EqualHeads(" ", a.commandTag + " " + a.body, " ", b.commandTag + " " + b.body);
    SplitAtFirstSpace(a.commandTag, a.body, b.commandTag, b.body);
  }

  // ---------------------------------------------------------------------
  // Ordering and filtering

  /** `ByTime.Less`: earlier timestamp first, then the body in Go's string
      order. */
  predicate Less(x: Activity, y: Activity) {
    if Before(x.timestamp, y.timestamp) then true
    else if Before(y.timestamp, x.timestamp) then false
    else LexLess(x.body, y.body)
  }

  lemma SameInstant(a: Timestamp, b: Timestamp)
    requires !Before(a, b) && !Before(b, a)
    ensures a == b
  {
    BeforeIsFieldOrder(a, b);
    BeforeIsFieldOrder(b, a);
  }

  /** Two activities are unordered by `Less` exactly when they share the
      timestamp and the body. */
  lemma LessTies(x: Activity, y: Activity)
    ensures !Less(x, y) && !Less(y, x) <==> x.timestamp == y.timestamp && x.body == y.body
  {
    if !Before(x.timestamp, y.timestamp) && !Before(y.timestamp, x.timestamp) {
      SameInstant(x.timestamp, y.timestamp);
      if x.body != y.body {
        LexLessTotal(x.body, y.body);
      }
    }
    if x.body == y.body {
      LexLessIrreflexive(x.body);
    }
  }

  /** `Less` is a strict order on `(timestamp, body)`. */
  lemma LessIsStrictWeakOrder()
    ensures Sorting.StrictWeakOrder(Less)
    ensures forall x :: !Less(x, x)
    ensures forall x, y, z :: Less(x, y) && Less(y, z) ==> Less(x, z)
  {
    forall x, y | Less(x, y)
      ensures !Less(y, x)
    {
      if !Before(x.timestamp, y.timestamp) {
        LexLessIrreflexive(x.body);
        if LexLess(y.body, x.body) {
          LexLessTransitive(x.body, y.body, x.body);
        }
      }
    }
    forall x, y, z | !Less(y, x) && !Less(z, y)
      ensures !Less(z, x)
    {
      LessTies(x, y);
      LessTies(y, z);
      if Less(z, x) && Instant(x.timestamp) == Instant(z.timestamp) {
        if x.body != y.body && y.body != z.body {
          LexLessTotal(x.body, y.body);
          LexLessTotal(y.body, z.body);
          LexLessTransitive(x.body, y.body, z.body);
          LexLessTransitive(z.body, x.body, z.body);
          LexLessIrreflexive(z.body);
        } else if x.body != y.body {
          LexLessTotal(x.body, y.body);
          LexLessTransitive(z.body, x.body, y.body);
          LexLessIrreflexive(z.body);
        } else if y.body != z.body {
          LexLessTotal(y.body, z.body);
          LexLessTransitive(z.body, x.body, z.body);
          LexLessIrreflexive(z.body);
        } else {
          LexLessIrreflexive(z.body);
        }
      }
    }
    forall x
      ensures !Less(x, x)
    {
      LexLessIrreflexive(x.body);
    }
    forall x, y, z | Less(x, y) && Less(y, z)
      ensures Less(x, z)
    {
      if Instant(x.timestamp) == Instant(y.timestamp) == Instant(z.timestamp) {
        LexLessTransitive(x.body, y.body, z.body);
      }
    }
  }

  /** `Sort`: orders the slice in place by `Less`, keeping its elements. */
  method Sort(a: array<Activity>)
    modifies a
    ensures Sorting.SortedBy(a[..], Less)
    ensures multiset(a[..]) == old(multiset(a[..]))
  {
    LessIsStrictWeakOrder();
    Sorting.InsertionSort(a, Less);
  }

  /** `onlyThoseBefore`: scans from the end for the last activity strictly
      before `cutoff` and returns the prefix that ends with it. */
  function OnlyThoseBefore(s: seq<Activity>, cutoff: Timestamp): (r: seq<Activity>)
    ensures |r| <= |s| && r == s[..|r|]
    ensures |r| > 0 ==> Before(r[|r| - 1].timestamp, cutoff)
    ensures forall i :: |r| <= i < |s| ==> !Before(s[i].timestamp, cutoff)
  {
    Sequences.TrimAfterLast(s, (a: Activity) => Before(a.timestamp, cutoff))
  }

  /** On a list in timestamp order, `onlyThoseBefore` keeps exactly the
      activities strictly before the cutoff. */
  lemma OnlyThoseBeforeSorted(s: seq<Activity>, cutoff: Timestamp)
    requires forall i, j :: 0 <= i < j < |s| ==> !Before(s[j].timestamp, s[i].timestamp)
    ensures var r := OnlyThoseBefore(s, cutoff);
      forall i :: 0 <= i < |s| ==> (i < |r| <==> Before(s[i].timestamp, cutoff))
  {
  }

  /** `Activities.String`: the canonical forms, last activity first. */
  method ListString(s: seq<Activity>) returns (r: string)
    ensures r == Sequences.ConcatReversed(s, String)
  {
    r := Sequences.WriteReversed(s, String);
  }
}
