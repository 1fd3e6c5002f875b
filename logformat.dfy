/** The text format of one log record, `[logtime] CMD: (id) activity`, as
    `LogLine.LogString` writes it and `ParseLogLine` reads it back with the
    pattern `\[(\d{4}-\d{2}-\d{2}T\d{2}:\d{2}:\d{2})\] ([^:]+): \(([0-9a-f]+)\)
    (\d{4}-\d{2}-\d{2} \d{2}:\d{2} .*)`, here written out as a parser. */
module LogFormat {
  import opened Basics
  import opened Strings
  import opened Calendar
  import opened Entities

  /** Number of digest characters shown to the user as an id. */
  const IdxLength: nat := 3

  /** One record of the log: the digest, the time of writing, the command
      and the activity. */
  datatype LogLine = LogLine(id: string, now: Clock, command: string, activity: Activity)

  /** Go's zero `LogLine{}`, returned for a line that does not match. */
  const ZeroLogLine: LogLine := LogLine("", ZeroClock, "", ZeroActivity)

  /** `LogLine.String`: the short id in brackets and the canonical form of
      the activity; Go panics on an id shorter than three characters. */
  function ShortString(l: LogLine): (r: string)
    requires |l.id| >= IdxLength
    ensures |r| == |String(l.activity)| + 7
    ensures r[0] == '[' && r[1..4] == l.id[..IdxLength] && r[4..6] == "] "
    ensures r[6..|r| - 1] == String(l.activity) && r[|r| - 1] == '\n'
  {
    "[" + l.id[..IdxLength] + "] " + String(l.activity) + "\n"
  }

  /** The short rendering tells apart exactly the records that differ in
      the first three digest characters or in the canonical activity. */
  lemma ShortStringInjective(l1: LogLine, l2: LogLine)
    requires |l1.id| >= IdxLength && |l2.id| >= IdxLength
    ensures ShortString(l1) == ShortString(l2) <==>
      l1.id[..IdxLength] == l2.id[..IdxLength] && String(l1.activity) == String(l2.activity)
  {
    if ShortString(l1) == ShortString(l2) {
      var r := ShortString(l1);
      assert r[1..4] == l1.id[..IdxLength] && r[1..4] == l2.id[..IdxLength];
      assert r[6..|r| - 1] == String(l1.activity) && r[6..|r| - 1] == String(l2.activity);
    }
  }

  /** The part of a record after the bracketed log time. */
  function Entry(l: LogLine): string {
    l.command + ": (" + (l.id + ") " + String(l.activity))
  }

  /** A record as the line scanner hands it back: without the newline. */
  function LogText(l: LogLine): string {
    "[" + ClockText(l.now) + "] " + Entry(l)
  }

  /** `LogLine.LogString`: the record and its terminating newline. */
  function LogString(l: LogLine): string {
    LogText(l) + "\n"
  }

  // ---------------------------------------------------------------------
  // The pattern

  /** The four capture groups of a match. */
  datatype Groups = Groups(clock: string, command: string, id: string, activityText: string)

  predicate AllLowerHex(s: string) {
    forall k :: 0 <= k < |s| ==> IsLowerHex(s[k])
  }

  /** The text a match covers, rebuilt from its groups. */
  function Covered(g: Groups): string {
    "[" + g.clock + "] " + (g.command + ": (" + (g.id + ") " + g.activityText))
  }

  /** What every match satisfies: the shape of each group. */
  predicate GroupsShape(g: Groups) {
    && ClockShape(g.clock)
    && g.command != "" && ':' !in g.command
    && g.id != "" && AllLowerHex(g.id)
    && |g.activityText| >= 17 && StampShape(g.activityText[..16]) && g.activityText[16] == ' '
    && '\n' !in g.activityText
  }

  /** Text with the characters `a` and `b` at position `k` and `rest`
      after them starts with its first `k` characters, `a`, `b` and `rest`. */
  lemma JoinAfter2(x: string, k: nat, a: char, b: char, rest: string)
    requires k + 2 <= |x| && x[k] == a && x[k + 1] == b
    requires |rest| <= |x| - k - 2 && x[k + 2..][..|rest|] == rest
    ensures k + 2 + |rest| <= |x| && x[..k + 2 + |rest|] == x[..k] + [a, b] + rest
  {
    assert x[..k + 2 + |rest|] == x[..k] + [x[k], x[k + 1]] + x[k + 2..][..|rest|];
  }

  /** The same with three characters. */
  lemma JoinAfter3(x: string, k: nat, a: char, b: char, c: char, rest: string)
    requires k + 3 <= |x| && x[k] == a && x[k + 1] == b && x[k + 2] == c
    requires |rest| <= |x| - k - 3 && x[k + 3..][..|rest|] == rest
    ensures k + 3 + |rest| <= |x| && x[..k + 3 + |rest|] == x[..k] + [a, b, c] + rest
  {
    assert x[..k + 3 + |rest|] == x[..k] + [x[k], x[k + 1], x[k + 2]] + x[k + 3..][..|rest|];
  }

  /** A prefix is its first character and the characters after it. */
  lemma HeadAndTail(x: string, n: nat)
    requires 1 <= n <= |x|
    ensures x[..n] == [x[0]] + x[1..n]
  {
  }

  /** `\d{4}-\d{2}-\d{2} \d{2}:\d{2} .*` at the start of `w`: the stamp, a
      space, and the greedy `.*`, which runs to the first newline or the
      end. */
  function MatchActivityText(w: string): (r: Option<string>)
    ensures r.Some? ==> && 17 <= |r.value| <= |w| && StampShape(r.value[..16]) && r.value[16] == ' '
                        && '\n' !in r.value && r.value == w[..|r.value|]
    ensures r.Some? ==> |r.value| == |w| || w[|r.value|] == '\n'
  {
    if !(|w| >= 17 && StampShape(w[..16]) && w[16] == ' ') then None
    else
      var e := SpanWithout(w[17..], '\n');
      assert w[..17 + e][..16] == w[..16];
      assert w[..17 + e][17..] == w[17..][..e];
      Some(w[..17 + e])
  }

  /** `([0-9a-f]+)\) ` and what follows: the id must stop at the first
      character that is not lower-case hex. */
  function MatchIdAndText(v: string): (r: Option<(string, string)>)
    ensures r.Some? ==> && r.value.0 != "" && AllLowerHex(r.value.0)
                        && |r.value.0| + 2 <= |v| && v[..|r.value.0|] == r.value.0
                        && v[|r.value.0|] == ')' && v[|r.value.0| + 1] == ' '
                        && MatchActivityText(v[|r.value.0| + 2..]) == Some(r.value.1)
  {
    var h := HexSpan(v);
    if !(h > 0 && h + 2 <= |v| && v[h] == ')' && v[h + 1] == ' ') then None
    else
      var m := MatchActivityText(v[h + 2..]);
      if m.None? then None else Some((v[..h], m.value))
  }

  /** `([^:]+): \(` and what follows: the command must stop at the first
      colon. */
  function MatchCommandAndRest(u: string): (r: Option<(string, string, string)>)
    ensures r.Some? ==> && r.value.0 != "" && ':' !in r.value.0
                        && |r.value.0| + 3 <= |u| && u[..|r.value.0|] == r.value.0
                        && u[|r.value.0|] == ':' && u[|r.value.0| + 1] == ' ' && u[|r.value.0| + 2] == '('
                        && MatchIdAndText(u[|r.value.0| + 3..]) == Some((r.value.1, r.value.2))
  {
    var c := SpanWithout(u, ':');
    if !(c > 0 && c + 3 <= |u| && u[c + 1] == ' ' && u[c + 2] == '(') then None
    else
      var m := MatchIdAndText(u[c + 3..]);
      if m.None? then None else Some((u[..c], m.value.0, m.value.1))
  }

  /** The pattern tried at position `i` of `s`. Each part is forced: the
      clock and the stamp are fixed width, `[^:]+` must stop at the first
      colon, `[0-9a-f]+` at the first non-hex character, and `.*` runs to
      the first newline or the end; so there is at most one match at each
      position. */
  function MatchAt(s: string, i: nat): (r: Option<Groups>)
    requires i <= |s|
    ensures r.Some? ==> GroupsShape(r.value)
  {
    var t := s[i..];
    if !(|t| >= 22 && t[0] == '[' && ClockShape(t[1..20]) && t[20] == ']' && t[21] == ' ') then None
    else
      var m := MatchCommandAndRest(t[22..]);
      if m.None? then None else Some(Groups(t[1..20], m.value.0, m.value.1, m.value.2))
  }

  /** What `([0-9a-f]+)\) ` and group 4 match is the text they report. */
  lemma IdAndTextCovered(v: string)
    requires MatchIdAndText(v).Some?
    ensures var (id, text) := MatchIdAndText(v).value;
      |id| + 2 + |text| <= |v| && v[..|id| + 2 + |text|] == id + ") " + text
  {
    var (id, text) := MatchIdAndText(v).value;
    assert MatchActivityText(v[|id| + 2..]) == Some(text);
    JoinAfter2(v, |id|, ')', ' ', text);
  }

  /** What `([^:]+): \(` and the rest match is the text they report. */
  lemma CommandAndRestCovered(u: string)
    requires MatchCommandAndRest(u).Some?
    ensures var (command, id, text) := MatchCommandAndRest(u).value;
      var after := command + ": (" + (id + ") " + text);
      |after| <= |u| && u[..|after|] == after
  {
    var (command, id, text) := MatchCommandAndRest(u).value;
    assert MatchIdAndText(u[|command| + 3..]) == Some((id, text));
    IdAndTextCovered(u[|command| + 3..]);
    JoinAfter3(u, |command|, ':', ' ', '(', id + ") " + text);
  }

  /** The bracketed clock, then what the rest of the pattern covered. */
  lemma FrameCovered(t: string, g: Groups)
    requires |t| >= 22 && t[0] == '[' && t[1..20] == g.clock && t[20] == ']' && t[21] == ' '
    requires var rest := g.command + ": (" + (g.id + ") " + g.activityText);
      |rest| <= |t| - 22 && t[22..][..|rest|] == rest
    ensures |Covered(g)| <= |t| && t[..|Covered(g)|] == Covered(g)
  {
    var rest := g.command + ": (" + (g.id + ") " + g.activityText);
    JoinAfter2(t, 20, ']', ' ', rest);
    HeadAndTail(t, 20);
  }

  /** What a match at `i` read: the bracketed clock and the rest. */
  lemma MatchParts(s: string, i: nat)
    requires i <= |s| && MatchAt(s, i).Some?
    ensures var g := MatchAt(s, i).value; var t := s[i..];
      && |t| >= 22 && t[0] == '[' && t[1..20] == g.clock && t[20] == ']' && t[21] == ' '
      && MatchCommandAndRest(t[22..]) == Some((g.command, g.id, g.activityText))
  {
  }

  /** The groups of a match are the text it covers at its position. */
  lemma MatchCovers(s: string, i: nat)
    requires i <= |s| && MatchAt(s, i).Some?
    ensures Covered(MatchAt(s, i).value) <= s[i..]
  {
    var g := MatchAt(s, i).value;
    var t := s[i..];
    MatchParts(s, i);
    CommandAndRestCovered(t[22..]);
    FrameCovered(t, g);
  }

  /** Whether the pattern matches at each position `0..|s|`. */
  function MatchTable(s: string): (t: seq<bool>)
    ensures |t| == |s| + 1
    ensures forall k :: 0 <= k <= |s| ==> t[k] == MatchAt(s, k).Some?
  {
    seq(|s| + 1, (k: int) requires 0 <= k <= |s| => MatchAt(s, k).Some?)
  }

  /** The first `true` at or after `i`. */
  function FirstTrue(t: seq<bool>, i: nat): (r: Option<nat>)
    requires i <= |t|
    ensures r.Some? ==> i <= r.value < |t| && t[r.value]
    ensures r.Some? ==> forall k :: i <= k < r.value ==> !t[k]
    ensures r.None? ==> forall k :: i <= k < |t| ==> !t[k]
    decreases |t| - i
  {
    if i == |t| then None
    else if t[i] then Some(i)
    else FirstTrue(t, i + 1)
  }

  /** The leftmost position where the pattern matches. */
  function FirstMatchStart(s: string): (r: Option<nat>)
    ensures r.Some? ==> r.value <= |s| && MatchAt(s, r.value).Some?
    ensures r.Some? ==> forall k :: 0 <= k < r.value ==> MatchAt(s, k).None?
    ensures r.None? ==> forall k :: 0 <= k <= |s| ==> MatchAt(s, k).None?
  {
    FirstTrue(MatchTable(s), 0)
  }

  /** `FindStringSubmatch`: the groups of the leftmost match, if any. */
  function FindSubmatch(s: string): (r: Option<Groups>)
    ensures r.Some? ==> GroupsShape(r.value)
    ensures r.Some? ==> exists k :: 0 <= k <= |s| && MatchAt(s, k) == r
                                    && forall j :: 0 <= j < k ==> MatchAt(s, j).None?
    ensures r.None? ==> forall k :: 0 <= k <= |s| ==> MatchAt(s, k).None?
  {
    match FirstMatchStart(s)
    case None => None
    case Some(k) => MatchAt(s, k)
  }

  /** `ParseLogLine` does not panic: a matched id has at least three
      characters for the slice `match[3][0:3]`. */
  predicate Decodable(s: string) {
    FindSubmatch(s).None? || |FindSubmatch(s).value.id| >= IdxLength
  }

  /** `time.Parse(match[1], Tformat)`: the layout and the value are passed
      the wrong way round, so the matched log time is read as a layout for
      the fixed text `2006-01-02T15:04:05`. When it is that very text the
      result is the reference time; otherwise it is taken to fail and give
      Go's zero time (as it does for every log time from 2007 on). */
  function ReadLogTime(clock: string): Clock {
    if clock == ClockLayout then ReferenceClock else ZeroClock
  }

  /** `ParseLogLine`. The log time comes from `ReadLogTime`; an activity
      whose timestamp does not parse is the zero activity; the activity's
      id is the short id. */
  function ParseLogLine(s: string): (r: LogLine)
    requires Decodable(s)
    ensures r.command == "" <==> FindSubmatch(s).None?
    ensures r.command == "" ==> r == ZeroLogLine
    ensures r.command != "" ==>
      && ':' !in r.command && |r.id| >= IdxLength && AllLowerHex(r.id)
      && r.activity.id == r.id[..IdxLength]
    ensures r.command != "" ==> var g := FindSubmatch(s).value;
      && r.id == g.id && r.command == g.command
      && (r.now == ReferenceClock <==> g.clock == ClockLayout)
      && (g.clock != ClockLayout ==> r.now == ZeroClock)
      && (Parse(g.activityText[..16]).Some? ==>
          r.activity == ParseOneActivity(g.activityText).value.(id := r.id[..IdxLength]))
      && (Parse(g.activityText[..16]).None? ==>
          r.activity == ZeroActivity.(id := r.id[..IdxLength]))
  {
    match FindSubmatch(s)
    case None => ZeroLogLine
    case Some(g) =>
      var activity := ParseOneActivity(g.activityText).GetOr(ZeroActivity);
      LogLine(g.id, ReadLogTime(g.clock), g.command, activity.(id := g.id[..IdxLength]))
  }

  // ---------------------------------------------------------------------
  // Round trip

  /** A record that the pattern reads back field by field. */
  predicate WellFormed(l: LogLine) {
    && 0 <= l.now.stamp.year < 10000
    && 0 <= l.activity.timestamp.year < 10000
    && l.command != "" && ':' !in l.command
    && |l.id| >= IdxLength && AllLowerHex(l.id)
    && '\n' !in l.activity.body
    && !BodySplits(l.activity.body)
  }

  lemma SpanAtDelimiter(word: string, c: char, rest: string)
    requires c !in word
    ensures SpanWithout(word + [c] + rest, c) == |word|
  {
    var s := word + [c] + rest;
    assert s[..|word|] == word && s[|word|] == c;
  }

  lemma HexSpanAt(word: string, rest: string)
    requires AllLowerHex(word) && |rest| > 0 && !IsLowerHex(rest[0])
    ensures HexSpan(word + rest) == |word|
  {
    var s := word + rest;
    assert forall k :: 0 <= k < |word| ==> s[k] == word[k];
    assert s[|word|] == rest[0];
  }

  lemma MatchCanonical(a: Activity)
    requires 0 <= a.timestamp.year < 10000 && '\n' !in a.body
    ensures MatchActivityText(String(a)) == Some(String(a))
  {
    var w := String(a);
    ParseFormat(a.timestamp);
    assert w[..16] == Format(a.timestamp);
    assert w[17..] == a.body;
    assert SpanWithout(a.body, '\n') == |a.body|;
    assert w[..17 + |a.body|] == w;
  }

  lemma MatchIdOf(id: string, text: string)
    requires id != "" && AllLowerHex(id) && MatchActivityText(text) == Some(text)
    ensures MatchIdAndText(id + ") " + text) == Some((id, text))
  {
    var v := id + ") " + text;
    HexSpanAt(id, ") " + text);
    assert v == id + (") " + text);
    assert v[..|id|] == id && v[|id|] == ')' && v[|id| + 1] == ' ' && v[|id| + 2..] == text;
  }

  /** `command + ": (" + rest` splits at the first colon. */
  lemma CommandSplit(command: string, rest: string)
    requires ':' !in command
    ensures var u := command + ": (" + rest;
      && SpanWithout(u, ':') == |command| && |command| + 3 <= |u| && u[..|command|] == command
      && u[|command| + 1] == ' ' && u[|command| + 2] == '(' && u[|command| + 3..] == rest
  {
    var u := command + ": (" + rest;
    assert u == command + [':'] + (" (" + rest);
    SpanAtDelimiter(command, ':', " (" + rest);
  }

  lemma MatchCommandOf(command: string, rest: string, id: string, text: string)
    requires command != "" && ':' !in command
    requires MatchIdAndText(rest) == Some((id, text))
    ensures MatchCommandAndRest(command + ": (" + rest) == Some((command, id, text))
  {
    CommandSplit(command, rest);
  }

  lemma Bracketed(clock: string, u: string)
    requires |clock| == 19
    ensures var s := "[" + clock + "] " + u;
      && s[0..] == s && |s| >= 22 && s[0] == '[' && s[1..20] == clock
      && s[20] == ']' && s[21] == ' ' && s[22..] == u
  {
  }

  lemma MatchAtStart(clock: string, u: string, command: string, id: string, text: string)
    requires ClockShape(clock)
    requires MatchCommandAndRest(u) == Some((command, id, text))
    ensures MatchAt("[" + clock + "] " + u, 0) == Some(Groups(clock, command, id, text))
  {
    Bracketed(clock, u);
  }

  /** A record whose fields the pattern can read back: `WellFormed`
      without the condition on how the parser splits the body. */
  predicate Matchable(l: LogLine) {
    && 0 <= l.now.stamp.year < 10000
    && 0 <= l.activity.timestamp.year < 10000
    && l.command != "" && ':' !in l.command
    && |l.id| >= IdxLength && AllLowerHex(l.id)
    && '\n' !in l.activity.body
  }

  /** A written line matches at its start, with the record's log time,
      command, id and canonical form as the four groups. */
  lemma WrittenLineMatches(l: LogLine)
    requires Matchable(l)
    ensures FindSubmatch(LogText(l)) == Some(Groups(ClockText(l.now), l.command, l.id, String(l.activity)))
    ensures Decodable(LogText(l))
  {
    var s := LogText(l);
    var a := l.activity;
    var u := Entry(l);
    ClockTextShape(l.now);
    MatchCanonical(a);
    MatchIdOf(l.id, String(a));
    MatchCommandOf(l.command, l.id + ") " + String(a), l.id, String(a));
    MatchAtStart(ClockText(l.now), u, l.command, l.id, String(a));
    assert FirstMatchStart(s) == Some(0);
  }

  /** A written line reads back with the record's id and command. */
  lemma WrittenRecordKeys(l: LogLine)
    requires Matchable(l)
    ensures Decodable(LogText(l))
    ensures ParseLogLine(LogText(l)).id == l.id && ParseLogLine(LogText(l)).command == l.command
  {
    WrittenLineMatches(l);
  }

  /** Writing a well-formed record and reading it back recovers its id,
      its command, and its activity's timestamp and body; the log time
      comes back only when it is the reference time and as the zero time
      otherwise, the tag comes back empty, and the activity's id as the
      short id. */
  lemma ParseLogText(l: LogLine)
    requires WellFormed(l)
    ensures Decodable(LogText(l))
    ensures ParseLogLine(LogText(l))
      == LogLine(l.id, if l.now == ReferenceClock then l.now else ZeroClock, l.command,
                 Activity(l.id[..IdxLength], l.activity.timestamp, "", l.activity.body))
  {
    WrittenLineMatches(l);
    ParseString(l.activity);
    ClockTextIsLayout(l.now);
  }

  /** A body that itself starts with the marker and has a later space is
      split again when its line is read back: the record keeps its id and
      command, but the activity read back has another canonical form, so
      it is filed under a digest that differs from the one it was written
      under unless the digest function collides. */
  lemma ParseLogTextSplit(l: LogLine)
    requires Matchable(l) && BodySplits(l.activity.body)
    ensures Decodable(LogText(l))
    ensures var r := ParseLogLine(LogText(l));
      && r.id == l.id && r.command == l.command
      && r.activity.timestamp == l.activity.timestamp
      && |r.activity.body| < |l.activity.body|
      && String(r.activity) != String(l.activity)
  {
    WrittenLineMatches(l);
    WrittenRecordKeys(l);
    ParseSplitString(l.activity);
  }
}
