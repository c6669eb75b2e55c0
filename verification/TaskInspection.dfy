/** How `src/machine/windows.layer.ts` finds out whether an installed task is the one it wants: the task XML is taken
    apart by regular expressions and compared with the definition. A task that was just written from a definition must
    be recognized as that definition's, and this says exactly when it is. */
module TaskInspection {
  import opened Options
  import opened Texts
  import opened CommandLine
  import opened Xml
  import opened TaskDefinition
  import opened TaskXml

  // ---------------------------------------------------------------- the weekdays in a schedule

  const WEEK: seq<Weekday> := [Sun, Mon, Tue, Wed, Thu, Fri, Sat]

  /** The first of these days whose element the text starts. */
  function DayNamed(text: string, days: seq<Weekday>): (day: Option<Weekday>)
    ensures day.Some? ==> "<" + WeekdayXmlName(day.value) <= text
  {
    if days == [] then None
    else if "<" + WeekdayXmlName(days[0]) <= text then Some(days[0]) else DayNamed(text, days[1..])
  }

  /** `(?:\s[^>]*)?\s*\/?>`. */
  function DayEnd(text: string): (rest: Option<string>)
    ensures rest.Some? ==> |rest.value| < |text|
  {
    if "/>" <= text then Some(text[2..]) else OpeningEnd(text)
  }

  /** A day's element may be closed at once, and may have a blank or attributes. */
  lemma DayEndsAreTold(first: char, attributes: string, rest: string)
    requires '>' !in attributes
    ensures DayEnd(">" + rest) == Some(rest) && DayEnd("/>" + rest) == Some(rest)
    ensures IsSpace(first) ==> DayEnd([first] + (attributes + ">" + rest)) == Some(rest)
  {
    OpeningsAreTold(first, attributes, rest);
    assert ("/>" + rest)[2..] == rest && (">" + rest)[0] == '>' && "/>"[0] == '/';
  }

  function MatchDay(text: string): (found: Option<(Weekday, string)>)
    ensures found.Some? ==> |found.value.1| < |text|
  {
    match DayNamed(text, WEEK)
    case None => None
    case Some(day) =>
      match DayEnd(text[|WeekdayXmlName(day)| + 1..])
      case None => None
      case Some(rest) => Some((day, rest))
  }

  /** `matchAll`: every weekday element, from left to right. */
  function ObservedDays(text: string): seq<Weekday>
    decreases |text|
  {
    match MatchDay(text)
    case Some((day, rest)) => [day] + ObservedDays(rest)
    case None => if text == "" then [] else ObservedDays(text[1..])
  }

  predicate AreDistinct(weekdays: seq<Weekday>) {
    forall j, k :: 0 <= j < k < |weekdays| ==> weekdays[j] != weekdays[k]
  }

  predicate WeekdaysMatch(schedule: string, weekdays: seq<Weekday>) {
    var observed := ObservedDays(schedule);
    |observed| == |weekdays| && AreDistinct(observed) && forall day :: day in weekdays ==> day in observed
  }

  // ---------------------------------------------------------------- the comparison

  predicate IntervalMatches(schedule: string, weekly: bool) {
    XmlElement(schedule, if weekly then "WeeksInterval" else "DaysInterval") == Some("1")
  }

  predicate TriggerEnabled(trigger: string) {
    XmlElement(trigger, "Enabled") != Some("false")
  }

  predicate EndsLine(c: char) {
    c == '\n' || c == '\r' || c == '\U{2028}' || c == '\U{2029}'
  }

  /** `text.replace(/^"(.*)"$/u, "$1")`. */
  function Unquoted(text: string): string {
    if |text| >= 2 && text[0] == '"' && text[|text| - 1] == '"' && forall c :: c in text ==> !EndsLine(c)
    then text[1..|text| - 1] else text
  }

  /** Line feed, carriage return, and the line and paragraph separators. */
  ghost predicate HasLineEnd(text: string) {
    exists k :: 0 <= k < |text| && text[k] as int in {10, 13, 0x2028, 0x2029}
  }

  /** Quotes go where they stand around the whole of one line, and nothing else goes. */
  lemma UnquotedMeans(text: string)
    ensures !HasLineEnd(text) ==> Unquoted("\"" + text + "\"") == text
    ensures text == "" || text[0] != '"' || text[|text| - 1] != '"' || HasLineEnd(text) ==> Unquoted(text) == text
  {
    assert ("\"" + text + "\"")[1..|text| + 1] == text;
    assert forall c :: EndsLine(c) <==> c as int in {10, 13, 0x2028, 0x2029};
    if k :| 0 <= k < |text| && text[k] as int in {10, 13, 0x2028, 0x2029} { assert text[k] in text; }
  }

  predicate ScheduleMatches(trigger: string, weekdays: Option<seq<Weekday>>) {
    var schedule := XmlElement(trigger, if weekdays.None? then "ScheduleByDay" else "ScheduleByWeek");
    && schedule.Some? && IntervalMatches(schedule.value, weekdays.Some?)
    && (weekdays.Some? ==> WeekdaysMatch(schedule.value, weekdays.value))
  }

  /** What `inspect` reports as `matches` for a task that is there. */
  predicate Matches(xml: string, desired: Definition) {
    var trigger := OrElse(XmlElement(xml, "CalendarTrigger"), "");
    var command, start := XmlElement(xml, "Command"), XmlElement(xml, "StartBoundary");
    && XmlElement(xml, "Description") == Some(desired.description)
    && command.Some? && Unquoted(command.value) == desired.executable
    && XmlElement(xml, "Arguments") == Some(desired.arguments)
    && start.Some? && Includes(start.value, "T" + desired.localTime + ":00")
    && ScheduleMatches(trigger, desired.weekdays) && TriggerEnabled(trigger)
  }

  // ---------------------------------------------------------------- elements that hold elements

  lemma {:induction false} ContentSkips(prefix: string, rest: string, closing: string)
    requires StartsNowhere(prefix, closing) && closing <= rest
    ensures Content(prefix + rest, closing) == Some(prefix)
  {
    if prefix == "" {
      assert prefix + rest == rest;
    } else {
      DiffersMeaning(prefix, rest, closing);
      assert (prefix + rest)[1..] == prefix[1..] + rest;
      ContentSkips(prefix[1..], rest, closing);
      assert prefix == [prefix[0]] + prefix[1..];
    }
  }

  lemma {:induction false} StartsNowhereInTags(pieces: seq<string>, name: string)
    requires AllSkippable(pieces, name)
    ensures StartsNowhere(Tags(pieces), "<" + name)
  {
    if pieces != [] {
      assert pieces[0] in pieces;
      SkippablePiece(pieces[0], name);
      assert forall piece :: piece in pieces[1..] ==> piece in pieces;
      StartsNowhereInTags(pieces[1..], name);
      StartsNowhereInBoth("<" + pieces[0], Tags(pieces[1..]), "<" + name);
    }
  }

  /** The pieces of an element that holds text and other elements. */
  function Whole(name: string, content: string, inside: seq<string>): seq<string> {
    [name + ">" + content] + inside + ["/" + name + ">"]
  }

  lemma WholeText(name: string, content: string, inside: seq<string>, rest: string)
    ensures Tags(Whole(name, content, inside)) + rest
            == "<" + name + (">" + ((content + Tags(inside)) + ("</" + name + ">" + rest)))
  {
    var opening, closing := name + ">" + content, "/" + name + ">";
    TagsJoin([opening] + inside, [closing]);
    TagsJoin([opening], inside);
    assert [closing][1..] == [] && [opening][1..] == [];
    assert "</" == "<" + "/";
  }

  lemma WholeIsMatched(name: string, content: string, inside: seq<string>, rest: string)
    requires '<' !in content && AllSkippable(inside, "/" + name + ">")
    ensures MatchElement("<" + name + (">" + ((content + Tags(inside)) + ("</" + name + ">" + rest))), name)
            == Some(content + Tags(inside))
  {
    var closing := "</" + name + ">";
    assert closing == "<" + ("/" + name + ">");
    var body := (content + Tags(inside)) + (closing + rest);
    var text := "<" + name + (">" + body);
    assert text[|name| + 1..] == ">" + body && (">" + body)[1..] == body;
    StartsNowhereWithout(content, closing);
    StartsNowhereInTags(inside, "/" + name + ">");
    StartsNowhereInBoth(content, Tags(inside), closing);
    ContentSkips(content + Tags(inside), closing + rest, closing);
  }

  /** An element of some text, by what stands before it and behind it. */
  lemma WholeIsFound(before: seq<string>, name: string, content: string, inside: seq<string>, after: seq<string>)
    requires AllSkippable(before, name) && '<' !in content && AllSkippable(inside, "/" + name + ">")
    ensures XmlElement(Tags(before + Whole(name, content, inside) + after), name)
            == Some(DecodeXml(Trim(content + Tags(inside))))
  {
    var rest := Tags(after);
    TagsJoin(before + Whole(name, content, inside), after);
    TagsJoin(before, Whole(name, content, inside));
    Rejoined(Tags(before), Tags(Whole(name, content, inside)), rest);
    WholeText(name, content, inside, rest);
    WholeIsMatched(name, content, inside, rest);
    PiecesAreSkipped(before, Tags(Whole(name, content, inside)) + rest, name);
  }

  lemma Rejoined(a: string, b: string, c: string)
    ensures a + b + c == a + (b + c)
  {
  }

  // ---------------------------------------------------------------- text that stands for itself

  lemma UnchangedWithout(text: string, pattern: string, replacement: string)
    requires pattern != "" && pattern[0] !in text
    ensures ReplaceAll(text, pattern, replacement) == text
  {
    StartsNowhereWithout(text, pattern);
    ReplaceSkips(text, "", pattern, replacement);
    assert text + "" == text;
  }

  lemma DecodedIsItself(text: string)
    requires '&' !in text
    ensures DecodeXml(text) == text
  {
    UnchangedWithout(text, "&apos;", "'");
    UnchangedWithout(text, "&quot;", "\"");
    UnchangedWithout(text, "&gt;", ">");
    UnchangedWithout(text, "&lt;", "<");
    UnchangedWithout(text, "&amp;", "&");
  }

  predicate IsTrimmed(text: string) {
    text == "" || (!IsSpace(text[0]) && !IsSpace(text[|text| - 1]))
  }

  lemma TrimmedIsItself(text: string)
    requires IsTrimmed(text)
    ensures Trim(text) == text
  {
  }

  lemma {:induction false} PlainTags(pieces: seq<string>)
    requires forall piece :: piece in pieces ==> '&' !in piece
    ensures '&' !in Tags(pieces)
  {
    if pieces != [] {
      assert pieces[0] in pieces;
      PlainTags(pieces[1..]);
    }
  }

  /** Pieces without entities that end in a bracket come through trimming and decoding. */
  lemma TagsStand(pieces: seq<string>)
    requires (forall piece :: piece in pieces ==> '&' !in piece) && pieces != []
    requires var last := pieces[|pieces| - 1]; last != "" && last[|last| - 1] == '>'
    ensures DecodeXml(Trim(Tags(pieces))) == Tags(pieces)
  {
    var most, last := pieces[..|pieces| - 1], pieces[|pieces| - 1];
    assert pieces == most + [last] && [last][1..] == [];
    TagsJoin(most, [last]);
    assert Tags([last]) == "<" + last;
    PlainTags(pieces);
    TrimmedIsItself(Tags(pieces));
    DecodedIsItself(Tags(pieces));
  }

  // ---------------------------------------------------------------- the weekdays of a schedule just written

  /** The piece names no weekday. */
  ghost predicate IsNoDay(piece: string) {
    '<' !in piece && forall day :: Differs(piece, WeekdayXmlName(day))
  }

  lemma {:induction false} NoDayIsNamed(text: string, days: seq<Weekday>)
    requires text == "" || text[0] != '<'
    ensures DayNamed(text, days).None?
  {
    if days != [] {
      assert ("<" + WeekdayXmlName(days[0]))[0] == '<';
      NoDayIsNamed(text, days[1..]);
    }
  }

  lemma {:induction false} TextHasNoDay(text: string, rest: string)
    requires '<' !in text
    ensures ObservedDays(text + rest) == ObservedDays(rest)
  {
    if text == "" {
      assert text + rest == rest;
    } else {
      assert (text + rest)[0] == text[0] && text[0] in text && (text + rest)[1..] == text[1..] + rest;
      NoDayIsNamed(text + rest, WEEK);
      TextHasNoDay(text[1..], rest);
    }
  }

  lemma PieceHasNoDay(piece: string, rest: string)
    requires IsNoDay(piece)
    ensures ObservedDays("<" + piece + rest) == ObservedDays(rest)
  {
    var text := "<" + piece + rest;
    assert text[1..] == piece + rest;
    if DayNamed(text, WEEK).Some? {
      var day := DayNamed(text, WEEK).value;
      DiffersMeaning(piece, rest, WeekdayXmlName(day));
      assert false;
    }
    TextHasNoDay(piece, rest);
  }

  lemma NamesDiffer(day: Weekday, other: Weekday, rest: string)
    ensures "<" + WeekdayXmlName(other) <= "<" + WeekdayXmlName(day) + rest <==> other == day
  {
    var text := "<" + WeekdayXmlName(day) + rest;
    assert text[1] == WeekdayXmlName(day)[0] && text[2] == WeekdayXmlName(day)[1];
    assert ("<" + WeekdayXmlName(other))[1] == WeekdayXmlName(other)[0]
           && ("<" + WeekdayXmlName(other))[2] == WeekdayXmlName(other)[1];
  }

  lemma {:induction false} DayIsNamed(day: Weekday, days: seq<Weekday>, rest: string)
    requires day in days
    ensures DayNamed("<" + WeekdayXmlName(day) + rest, days) == Some(day)
  {
    NamesDiffer(day, days[0], rest);
    if days[0] != day {
      assert days == [days[0]] + days[1..];
      DayIsNamed(day, days[1..], rest);
    }
  }

  lemma DayTagEnds(rest: string)
    ensures DayEnd(" />" + rest) == Some(rest)
  {
    var text := " />" + rest;
    assert text[0] == ' ' && text[1..] == "/>" + rest;
    assert ("/>" + rest)[0] == '/' && ("/>" + rest)[1..] == ">" + rest && (">" + rest)[1..] == rest;
    assert BehindBracket(">" + rest) == Some(rest);
    assert BehindBracket("/>" + rest) == Some(rest);
  }

  lemma BehindName(name: string, rest: string)
    ensures ("<" + name + rest)[|name| + 1..] == rest
  {
  }

  lemma DayIsObserved(day: Weekday, rest: string)
    ensures ObservedDays("<" + WeekdayXmlName(day) + (" />" + rest)) == [day] + ObservedDays(rest)
  {
    assert WEEK[0] == Sun && WEEK[1] == Mon && WEEK[2] == Tue && WEEK[3] == Wed && WEEK[4] == Thu && WEEK[5] == Fri
           && WEEK[6] == Sat;
    DayIsNamed(day, WEEK, " />" + rest);
    BehindName(WeekdayXmlName(day), " />" + rest);
    DayTagEnds(rest);
    assert MatchDay("<" + WeekdayXmlName(day) + (" />" + rest)) == Some((day, rest));
  }

  lemma DayText(weekdays: seq<Weekday>, rest: string)
    requires weekdays != []
    ensures Tags(WeekdayTags(weekdays)) + rest
            == "<" + WeekdayXmlName(weekdays[0]) + (" />" + (Tags(WeekdayTags(weekdays[1..])) + rest))
  {
    assert WeekdayTags(weekdays)[1..] == WeekdayTags(weekdays[1..]);
    TagThen(WeekdayXmlName(weekdays[0]), " />", Tags(WeekdayTags(weekdays[1..])), rest);
  }

  lemma TagThen(a: string, b: string, c: string, d: string)
    ensures "<" + (a + b) + c + d == "<" + a + (b + (c + d))
  {
  }

  lemma FirstDayIsObserved(weekdays: seq<Weekday>, rest: string)
    requires weekdays != []
    ensures ObservedDays(Tags(WeekdayTags(weekdays)) + rest)
            == [weekdays[0]] + ObservedDays(Tags(WeekdayTags(weekdays[1..])) + rest)
  {
    DayText(weekdays, rest);
    DayIsObserved(weekdays[0], Tags(WeekdayTags(weekdays[1..])) + rest);
  }

  lemma {:induction false} OneByOne(show: seq<Weekday> -> seq<Weekday>, weekdays: seq<Weekday>)
    requires forall days :: days != [] ==> show(days) == [days[0]] + show(days[1..])
    ensures show(weekdays) == weekdays + show([])
  {
    if weekdays == [] {
      assert show(weekdays) == show([]);
    } else {
      OneByOne(show, weekdays[1..]);
      assert weekdays == [weekdays[0]] + weekdays[1..];
    }
  }

  lemma DaysAreObserved(weekdays: seq<Weekday>, rest: string)
    ensures ObservedDays(Tags(WeekdayTags(weekdays)) + rest) == weekdays + ObservedDays(rest)
  {
    var show := days => ObservedDays(Tags(WeekdayTags(days)) + rest);
    forall days: seq<Weekday> | days != [] ensures show(days) == [days[0]] + show(days[1..]) {
      FirstDayIsObserved(days, rest);
    }
    OneByOne(show, weekdays);
    assert Tags(WeekdayTags([])) + rest == rest;
  }

  /** The weekdays that a weekly schedule's own text shows are the schedule's, in order. */
  lemma WeekShowsItsDays(weekdays: seq<Weekday>, interval: string)
    requires '<' !in interval
    ensures ObservedDays(Tags(WeekInside(weekdays, interval))) == weekdays
  {
    var days := Tags(WeekdayTags(weekdays));
    var ending := "<" + "/DaysOfWeek>" + "";
    WeekText(weekdays, interval);
    NoDayAroundDays(interval);
    PieceHasNoDay("WeeksInterval>" + interval, "<" + "/WeeksInterval>" + ("<" + "DaysOfWeek>" + (days + ending)));
    PieceHasNoDay("/WeeksInterval>", "<" + "DaysOfWeek>" + (days + ending));
    PieceHasNoDay("DaysOfWeek>", days + ending);
    PieceHasNoDay("/DaysOfWeek>", "");
    DaysAreObserved(weekdays, ending);
  }

  lemma NoDayByFirstLetter(piece: string)
    requires '<' !in piece && piece != "" && (piece[0] == '/' || piece[0] == 'D')
    ensures IsNoDay(piece)
  {
    forall day ensures Differs(piece, WeekdayXmlName(day)) {}
  }

  lemma NoDayByThirdLetter(rest: string)
    requires '<' !in rest
    ensures IsNoDay("Wee" + rest)
  {
    var piece := "Wee" + rest;
    assert piece[1..][0] == 'e' && piece[1..][1..][0] == 'e';
    forall day ensures Differs(piece, WeekdayXmlName(day)) {
      var name := WeekdayXmlName(day);
      assert name[1..][0] == name[1] && name[1..][1..][0] == name[2];
    }
  }

  lemma NoDayAroundDays(interval: string)
    requires '<' !in interval
    ensures IsNoDay("WeeksInterval>" + interval) && IsNoDay("/WeeksInterval>") && IsNoDay("DaysOfWeek>")
            && IsNoDay("/DaysOfWeek>")
  {
    assert "WeeksInterval>" + interval == "Wee" + ("ksInterval>" + interval);
    NoDayByThirdLetter("ksInterval>" + interval);
    NoDayByFirstLetter("/WeeksInterval>");
    NoDayByFirstLetter("DaysOfWeek>");
    NoDayByFirstLetter("/DaysOfWeek>");
  }

  function WeekInside(weekdays: seq<Weekday>, interval: string): seq<string> {
    Element("WeeksInterval", interval) + Nested("DaysOfWeek", "", WeekdayTags(weekdays))
  }

  lemma WeekText(weekdays: seq<Weekday>, interval: string)
    ensures Tags(WeekInside(weekdays, interval))
            == "<" + ("WeeksInterval>" + interval) + ("<" + "/WeeksInterval>" + ("<" + "DaysOfWeek>"
               + (Tags(WeekdayTags(weekdays)) + ("<" + "/DaysOfWeek>" + ""))))
  {
    var first, second, opening, closing := "WeeksInterval>" + interval, "/WeeksInterval>", "DaysOfWeek>",
                                           "/DaysOfWeek>";
    var days := WeekdayTags(weekdays);
    assert "WeeksInterval" + ">" == "WeeksInterval>" && "WeeksInterval" + ">" + interval == first;
    assert "/" + "WeeksInterval" + ">" == second;
    assert "DaysOfWeek" + "" + ">" == opening && "/" + "DaysOfWeek" + ">" == closing;
    assert WeekInside(weekdays, interval) == [first, second] + ([opening] + days + [closing]);
    assert WeekInside(weekdays, interval) == [first] + ([second] + ([opening] + (days + [closing])));
    TagsJoin([first], [second] + ([opening] + (days + [closing])));
    TagsJoin([second], [opening] + (days + [closing]));
    TagsJoin([opening], days + [closing]);
    TagsJoin(days, [closing]);
    assert [first][1..] == [] && [second][1..] == [] && [opening][1..] == [] && [closing][1..] == [];
  }

  // ---------------------------------------------------------------- the elements of a written task

  /** Text that stands in an element for itself. */
  predicate IsSetting(text: string) {
    '<' !in text && '&' !in text && IsTrimmed(text)
  }

  /** An element's pieces are told from `name` by their first letter, or by the one behind a slash. */
  predicate TellsApart(other: string, name: string) {
    '<' !in other && other != "" && other[0] != '/' && |name| > 1
      && other[0] != (if name[0] == '/' then name[1] else name[0])
  }

  lemma PieceIsApart(piece: string, name: string)
    requires '<' !in piece && piece != "" && name != ""
    requires piece[0] != name[0] || (|piece| > 1 && |name| > 1 && piece[1] != name[1])
    ensures Skippable(piece, name)
  {
    if piece[0] == name[0] { assert piece[1..][0] == piece[1] && name[1..][0] == name[1]; }
  }

  lemma TagsAreApart(other: string, content: string, name: string)
    requires TellsApart(other, name) && '<' !in content
    ensures Skippable(other + ">" + content, name) && Skippable("/" + other + ">", name)
  {
    assert (other + ">" + content)[0] == other[0];
    assert ("/" + other + ">")[0] == '/' && ("/" + other + ">")[1] == other[0];
    PieceIsApart(other + ">" + content, name);
    PieceIsApart("/" + other + ">", name);
  }

  lemma ElementIsApart(other: string, content: string, name: string)
    requires TellsApart(other, name) && '<' !in content
    ensures AllSkippable(Element(other, content), name)
  {
    TagsAreApart(other, content, name);
  }

  lemma NestedIsApart(other: string, inside: seq<string>, name: string)
    requires TellsApart(other, name) && AllSkippable(inside, name)
    ensures AllSkippable(Nested(other, "", inside), name)
  {
    TagsAreApart(other, "", name);
    assert other + ">" + "" == other + "" + ">";
  }

  /** The pieces of a schedule, inside its own element. */
  function ScheduleInside(weekdays: Option<seq<Weekday>>, interval: string): seq<string> {
    match weekdays case None => Element("DaysInterval", interval) case Some(days) => WeekInside(days, interval)
  }

  function ScheduleName(weekdays: Option<seq<Weekday>>): string {
    if weekdays.None? then "ScheduleByDay" else "ScheduleByWeek"
  }

  lemma DayIsApart(day: Weekday, closing: string)
    requires |closing| > 1 && closing[0] == '/'
    ensures Skippable(WeekdayXmlName(day) + " />", closing) && '&' !in WeekdayXmlName(day) + " />"
  {
    var name := WeekdayXmlName(day);
    assert '<' !in name && '&' !in name && name != "" && name[0] != '/';
    assert (name + " />")[0] == name[0];
    PieceIsApart(name + " />", closing);
  }

  lemma {:induction false} DaysAreApart(weekdays: seq<Weekday>, closing: string)
    requires |closing| > 1 && closing[0] == '/'
    ensures AllSkippable(WeekdayTags(weekdays), closing)
    ensures forall piece :: piece in WeekdayTags(weekdays) ==> '&' !in piece
  {
    if weekdays != [] {
      DaysAreApart(weekdays[1..], closing);
      DayIsApart(weekdays[0], closing);
    }
  }

  /** Inside a schedule nothing closes the elements around it, and nothing is escaped. */
  lemma ScheduleInsideIsApart(weekdays: Option<seq<Weekday>>, interval: string, closing: string)
    requires '<' !in interval && '&' !in interval
    requires |closing| > 1 && closing[0] == '/' && (closing[1] == 'S' || closing[1] == 'C')
    ensures AllSkippable(ScheduleInside(weekdays, interval), closing)
    ensures forall piece :: piece in ScheduleInside(weekdays, interval) ==> '&' !in piece
  {
    if weekdays.None? {
      ElementIsApart("DaysInterval", interval, closing);
    } else {
      DaysAreApart(weekdays.value, closing);
      ElementIsApart("WeeksInterval", interval, closing);
      NestedIsApart("DaysOfWeek", WeekdayTags(weekdays.value), closing);
    }
  }

  lemma ScheduleIsWhole(weekdays: Option<seq<Weekday>>, interval: string)
    ensures ScheduleTags(weekdays, interval) == Whole(ScheduleName(weekdays), "", ScheduleInside(weekdays, interval))
  {
    NestedIsWhole(ScheduleName(weekdays), ScheduleInside(weekdays, interval));
  }

  function StartOf(definition: Definition): string {
    "2000-01-01" + ("T" + definition.localTime + ":00")
  }

  /** The pieces of the trigger, inside its own element. */
  function TriggerInside(definition: Definition, enabled: string, interval: string): seq<string> {
    Element("StartBoundary", StartOf(definition)) + Element("Enabled", enabled)
        + ScheduleTags(definition.weekdays, interval)
  }

  lemma StartIsPlain(definition: Definition)
    requires IsTime(definition.localTime)
    ensures '<' !in StartOf(definition) && '&' !in StartOf(definition) && IsTrimmed(StartOf(definition))
  {
    var time := definition.localTime;
    assert time == [time[0], time[1], time[2], time[3], time[4]];
  }

  lemma TriggerInsideIsApart(definition: Definition, enabled: string, interval: string)
    requires IsTime(definition.localTime) && IsSetting(enabled) && IsSetting(interval)
    ensures AllSkippable(TriggerInside(definition, enabled, interval), "/" + "CalendarTrigger" + ">")
    ensures forall piece :: piece in TriggerInside(definition, enabled, interval) ==> '&' !in piece
  {
    var closing := "/" + "CalendarTrigger" + ">";
    StartIsPlain(definition);
    ElementIsApart("StartBoundary", StartOf(definition), closing);
    ElementIsApart("Enabled", enabled, closing);
    ScheduleInsideIsApart(definition.weekdays, interval, closing);
    NestedIsApart(ScheduleName(definition.weekdays), ScheduleInside(definition.weekdays, interval), closing);
    ScheduleIsWhole(definition.weekdays, interval);
    assert ScheduleTags(definition.weekdays, interval)
           == Nested(ScheduleName(definition.weekdays), "", ScheduleInside(definition.weekdays, interval));
  }

  /** What stands before the trigger. */
  function BeforeTrigger(definition: Definition): seq<string> {
    HeaderTags() + Element("Description", EscapeXml(definition.description)) + ["/RegistrationInfo>", "Triggers>"]
  }

  lemma BeforeTriggerIsApart(definition: Definition, name: string)
    requires name != "" && (name[0] == 'C' || name[0] == 'S')
    ensures AllSkippable(BeforeTrigger(definition), name)
  {
    EscapeXmlIsEscaped(definition.description);
    EscapedHasNoBracket(definition.description);
    HeaderIsApart(name);
    DescriptionIsApart(EscapeXml(definition.description), name);
    PieceIsApart("/RegistrationInfo>", name);
    PieceIsApart("Triggers>", name);
  }

  lemma DescriptionIsApart(content: string, name: string)
    requires '<' !in content && name != "" && (name[0] == 'C' || name[0] == 'S')
    ensures AllSkippable(Element("Description", content), name)
  {
    PieceIsApart("Description" + ">" + content, name);
    PieceIsApart("/" + "Description" + ">", name);
  }

  lemma HeaderIsApart(name: string)
    requires name != "" && (name[0] == 'C' || name[0] == 'S')
    ensures AllSkippable(HeaderTags(), name)
  {
    TaskOpeningIsSkipped("Description");
    DeclarationIsSkipped("Description");
    assert TASK_OPENING[0] == 'T' && XML_DECLARATION[0] == '?';
  }

  /** The task XML around its trigger. */
  lemma XmlAroundTrigger(definition: Definition, principal: string, enabled: string, interval: string)
    returns (after: seq<string>)
    ensures TaskXmlWith(definition, principal, enabled, interval)
            == Tags(BeforeTrigger(definition)
                    + Whole("CalendarTrigger", "", TriggerInside(definition, enabled, interval)) + after)
  {
    var command, arguments := Element("Command", EscapeXml(definition.executable)),
                              Element("Arguments", EscapeXml(definition.arguments));
    var trigger := Whole("CalendarTrigger", "", TriggerInside(definition, enabled, interval));
    var rest := PrincipalTags(principal) + SettingsTags() + ["Actions Context=\"Author\">", "Exec>"];
    after := ["/Triggers>"] + rest + command + arguments + CLOSING_TAGS;
    TriggerIsWhole(definition, enabled, interval);
    assert MiddleTags(definition, principal, enabled, interval)
           == ["/RegistrationInfo>", "Triggers>"] + trigger + (["/Triggers>"] + rest);
    Around(HeaderTags() + Element("Description", EscapeXml(definition.description)),
           ["/RegistrationInfo>", "Triggers>"], trigger, ["/Triggers>"] + rest, command, arguments, CLOSING_TAGS);
  }

  lemma Around(a: seq<string>, b: seq<string>, c: seq<string>, d: seq<string>, e: seq<string>, f: seq<string>,
               g: seq<string>)
    ensures a + (b + c + d) + e + f + g == (a + b) + c + (d + e + f + g)
  {
  }

  lemma TriggerIsWhole(definition: Definition, enabled: string, interval: string)
    ensures TriggerTags(definition, enabled, interval)
            == ["/RegistrationInfo>", "Triggers>"] + Whole("CalendarTrigger", "",
                                                           TriggerInside(definition, enabled, interval))
               + ["/Triggers>"]
  {
    StartText(definition.localTime);
    NestedIsWhole("CalendarTrigger", TriggerInside(definition, enabled, interval));
    TriggersText(Whole("CalendarTrigger", "", TriggerInside(definition, enabled, interval)));
  }

  lemma TriggersText(inside: seq<string>)
    ensures ["/RegistrationInfo>"] + Nested("Triggers", "", inside)
            == ["/RegistrationInfo>", "Triggers>"] + inside + ["/Triggers>"]
  {
    assert "Triggers" + "" + ">" == "Triggers>" && "/" + "Triggers" + ">" == "/Triggers>";
  }

  lemma StartText(time: string)
    ensures "2000-01-01T" + time + ":00" == "2000-01-01" + ("T" + time + ":00")
  {
    assert "2000-01-01T" == "2000-01-01" + "T";
  }

  lemma NestedIsWhole(name: string, inside: seq<string>)
    ensures Nested(name, "", inside) == Whole(name, "", inside)
  {
    assert name + ">" + "" == name + "" + ">";
  }

  lemma TriggerIsFound(definition: Definition, principal: string, enabled: string, interval: string)
    requires IsTime(definition.localTime) && IsSetting(enabled) && IsSetting(interval)
    ensures XmlElement(TaskXmlWith(definition, principal, enabled, interval), "CalendarTrigger")
            == Some(Tags(TriggerInside(definition, enabled, interval)))
  {
    var after := XmlAroundTrigger(definition, principal, enabled, interval);
    BeforeTriggerIsApart(definition, "CalendarTrigger");
    TriggerInsideIsApart(definition, enabled, interval);
    WholeIsFound(BeforeTrigger(definition), "CalendarTrigger", "", TriggerInside(definition, enabled, interval), after);
    assert "" + Tags(TriggerInside(definition, enabled, interval))
           == Tags(TriggerInside(definition, enabled, interval));
    TagsStand(TriggerInside(definition, enabled, interval));
  }

  lemma BehindOpening(a: seq<string>, opening: string, b: seq<string>, c: seq<string>, closing: string, d: seq<string>)
    ensures a + ([opening] + (b + c) + [closing]) + d == (a + [opening]) + b + (c + [closing] + d)
  {
  }

  lemma XmlAroundStart(definition: Definition, principal: string, enabled: string, interval: string)
    returns (after: seq<string>)
    ensures TaskXmlWith(definition, principal, enabled, interval)
            == Tags((BeforeTrigger(definition) + ["CalendarTrigger" + ">" + ""])
                    + Whole("StartBoundary", StartOf(definition), []) + after)
  {
    var behind := XmlAroundTrigger(definition, principal, enabled, interval);
    var start, more := Whole("StartBoundary", StartOf(definition), []),
                       Element("Enabled", enabled) + ScheduleTags(definition.weekdays, interval);
    assert TriggerInside(definition, enabled, interval) == start + more;
    after := more + ["/" + "CalendarTrigger" + ">"] + behind;
    BehindOpening(BeforeTrigger(definition), "CalendarTrigger" + ">" + "", start, more, "/" + "CalendarTrigger" + ">",
                  behind);
  }

  /** An element of plain, trimmed text. */
  lemma PlainIsFound(before: seq<string>, name: string, content: string, after: seq<string>)
    requires AllSkippable(before, name) && '<' !in content && '&' !in content && IsTrimmed(content)
    ensures XmlElement(Tags(before + Whole(name, content, []) + after), name) == Some(content)
  {
    WholeIsFound(before, name, content, [], after);
    assert content + Tags([]) == content;
    TrimmedIsItself(content);
    DecodedIsItself(content);
  }

  lemma StartIsFound(definition: Definition, principal: string, enabled: string, interval: string)
    requires IsTime(definition.localTime) && IsSetting(enabled) && IsSetting(interval)
    ensures XmlElement(TaskXmlWith(definition, principal, enabled, interval), "StartBoundary")
            == Some(StartOf(definition))
  {
    var after := XmlAroundStart(definition, principal, enabled, interval);
    BeforeTriggerIsApart(definition, "StartBoundary");
    PieceIsApart("CalendarTrigger" + ">" + "", "StartBoundary");
    StartIsPlain(definition);
    PlainIsFound(BeforeTrigger(definition) + ["CalendarTrigger" + ">" + ""], "StartBoundary", StartOf(definition),
                 after);
  }

  lemma EnabledIsFound(definition: Definition, enabled: string, interval: string)
    requires IsTime(definition.localTime) && IsSetting(enabled) && IsSetting(interval)
    ensures XmlElement(Tags(TriggerInside(definition, enabled, interval)), "Enabled") == Some(enabled)
  {
    var before, schedule := Element("StartBoundary", StartOf(definition)), ScheduleTags(definition.weekdays, interval);
    StartIsPlain(definition);
    ElementIsApart("StartBoundary", StartOf(definition), "Enabled");
    assert Element("Enabled", enabled) == Whole("Enabled", enabled, []);
    PlainIsFound(before, "Enabled", enabled, schedule);
  }

  lemma BeforeScheduleIsApart(definition: Definition, enabled: string)
    requires IsTime(definition.localTime) && IsSetting(enabled)
    ensures AllSkippable(Element("StartBoundary", StartOf(definition)) + Element("Enabled", enabled),
                         ScheduleName(definition.weekdays))
  {
    var name := ScheduleName(definition.weekdays);
    StartIsPlain(definition);
    ElementIsApart("Enabled", enabled, name);
    PieceIsApart("StartBoundary" + ">" + StartOf(definition), name);
    PieceIsApart("/" + "StartBoundary" + ">", name);
  }

  lemma ScheduleIsFound(definition: Definition, enabled: string, interval: string)
    requires IsTime(definition.localTime) && IsSetting(enabled) && IsSetting(interval)
    ensures XmlElement(Tags(TriggerInside(definition, enabled, interval)), ScheduleName(definition.weekdays))
            == Some(Tags(ScheduleInside(definition.weekdays, interval)))
  {
    var weekdays := definition.weekdays;
    var before := Element("StartBoundary", StartOf(definition)) + Element("Enabled", enabled);
    BeforeScheduleIsApart(definition, enabled);
    ScheduleInsideIsApart(weekdays, interval, "/" + ScheduleName(weekdays) + ">");
    ScheduleIsWhole(weekdays, interval);
    assert TriggerInside(definition, enabled, interval) == before
           + Whole(ScheduleName(weekdays), "", ScheduleInside(weekdays, interval)) + [];
    WholeIsFound(before, ScheduleName(weekdays), "", ScheduleInside(weekdays, interval), []);
    assert "" + Tags(ScheduleInside(weekdays, interval)) == Tags(ScheduleInside(weekdays, interval));
    TagsStand(ScheduleInside(weekdays, interval));
  }

  lemma IntervalIsFound(weekdays: Option<seq<Weekday>>, interval: string)
    requires IsSetting(interval)
    ensures IntervalMatches(Tags(ScheduleInside(weekdays, interval)), weekdays.Some?) <==> interval == "1"
  {
    match weekdays
    case None => SettingIsFound("DaysInterval", interval, []);
    case Some(days) => SettingIsFound("WeeksInterval", interval, Nested("DaysOfWeek", "", WeekdayTags(days)));
  }

  lemma SettingIsFound(name: string, setting: string, after: seq<string>)
    requires IsSetting(setting)
    ensures XmlElement(Tags(Element(name, setting) + after), name) == Some(setting)
    ensures Element(name, setting) + [] == Element(name, setting)
  {
    assert [] + Whole(name, setting, []) + after == Element(name, setting) + after;
    PlainIsFound([], name, setting, after);
  }

  // ---------------------------------------------------------------- an element that is not there

  lemma {:induction false} DiffersBehind(prefix: string, one: string, other: string)
    requires Differs(one, other)
    ensures Differs(prefix + one, prefix + other)
  {
    if prefix == "" {
      assert prefix + one == one && prefix + other == other;
    } else {
      assert (prefix + one)[1..] == prefix[1..] + one && (prefix + other)[1..] == prefix[1..] + other;
      DiffersBehind(prefix[1..], one, other);
    }
  }

  lemma NothingIsFound(pieces: seq<string>, name: string)
    requires AllSkippable(pieces, name)
    ensures XmlElement(Tags(pieces), name).None?
  {
    PiecesAreSkipped(pieces, "", name);
    assert Tags(pieces) + "" == Tags(pieces);
  }

  lemma {:induction false} DaysAreNoSchedule(weekdays: seq<Weekday>, name: string)
    requires |name| > 1 && name[0] == 'S' && name[1] == 'c'
    ensures AllSkippable(WeekdayTags(weekdays), name)
  {
    if weekdays != [] {
      var day := WeekdayXmlName(weekdays[0]);
      DaysAreNoSchedule(weekdays[1..], name);
      assert '<' !in day && |day| > 1 && (day[0] != 'S' || day[1] != 'c');
      assert (day + " />")[0] == day[0] && (day + " />")[1] == day[1];
      PieceIsApart(day + " />", name);
    }
  }

  lemma DailyIsNoWeekly(interval: string)
    requires IsSetting(interval)
    ensures AllSkippable(ScheduleTags(None, interval), "ScheduleByWeek")
  {
    DiffersBehind("ScheduleBy", "Day>", "Week");
    assert "ScheduleBy" + "Day>" == "ScheduleByDay" + "" + ">" && "ScheduleBy" + "Week" == "ScheduleByWeek";
    ElementIsApart("DaysInterval", interval, "ScheduleByWeek");
    PieceIsApart("/" + "ScheduleByDay" + ">", "ScheduleByWeek");
  }

  lemma WeeklyIsNoDaily(days: seq<Weekday>, interval: string)
    requires IsSetting(interval)
    ensures AllSkippable(ScheduleTags(Some(days), interval), "ScheduleByDay")
  {
    DiffersBehind("ScheduleBy", "Week>", "Day");
    assert "ScheduleBy" + "Week>" == "ScheduleByWeek" + "" + ">" && "ScheduleBy" + "Day" == "ScheduleByDay";
    ElementIsApart("WeeksInterval", interval, "ScheduleByDay");
    DaysAreNoSchedule(days, "ScheduleByDay");
    NestedIsApart("DaysOfWeek", WeekdayTags(days), "ScheduleByDay");
    PieceIsApart("/" + "ScheduleByWeek" + ">", "ScheduleByDay");
  }

  /** The schedule of the one kind is not taken for that of the other. */
  lemma OtherScheduleIsNotFound(definition: Definition, enabled: string, interval: string)
    requires IsTime(definition.localTime) && IsSetting(enabled) && IsSetting(interval)
    ensures var name := if definition.weekdays.None? then "ScheduleByWeek" else "ScheduleByDay";
      XmlElement(Tags(TriggerInside(definition, enabled, interval)), name).None?
  {
    var name := if definition.weekdays.None? then "ScheduleByWeek" else "ScheduleByDay";
    match definition.weekdays {
      case None => DailyIsNoWeekly(interval);
      case Some(days) => WeeklyIsNoDaily(days, interval);
    }
    StartIsPlain(definition);
    ElementIsApart("Enabled", enabled, name);
    PieceIsApart("StartBoundary" + ">" + StartOf(definition), name);
    PieceIsApart("/" + "StartBoundary" + ">", name);
    NothingIsFound(TriggerInside(definition, enabled, interval), name);
  }

  // ---------------------------------------------------------------- recognizing a task

  /** The weekdays are the wanted ones, and none of them is repeated. */
  ghost predicate SameDays(written: seq<Weekday>, wanted: seq<Weekday>) {
    |written| == |wanted| && AreDistinct(written) && forall day :: day in wanted ==> day in written
  }

  ghost predicate SameRecurrence(written: Option<seq<Weekday>>, wanted: Option<seq<Weekday>>) {
    (written.None? && wanted.None?) || (written.Some? && wanted.Some? && SameDays(written.value, wanted.value))
  }

  /** A trigger matches exactly when it recurs every day, or every week on the wanted days with no day repeated. */
  lemma ScheduleIsRecognized(definition: Definition, enabled: string, interval: string, wanted: Option<seq<Weekday>>)
    requires IsTime(definition.localTime) && IsSetting(enabled) && IsSetting(interval)
    ensures ScheduleMatches(Tags(TriggerInside(definition, enabled, interval)), wanted)
            <==> interval == "1" && SameRecurrence(definition.weekdays, wanted)
  {
    if definition.weekdays.Some? == wanted.Some? {
      ScheduleIsFound(definition, enabled, interval);
      IntervalIsFound(definition.weekdays, interval);
      if definition.weekdays.Some? { WeekShowsItsDays(definition.weekdays.value, interval); }
    } else {
      OtherScheduleIsNotFound(definition, enabled, interval);
    }
  }

  /** What the comparison comes to when the elements are found. */
  lemma MatchesFound(xml: string, written: Definition, wanted: Definition, start: string, trigger: string)
    requires XmlElement(xml, "Description") == Some(Trim(written.description))
    requires XmlElement(xml, "Command") == Some(Trim(written.executable))
    requires XmlElement(xml, "Arguments") == Some(Trim(written.arguments))
    requires XmlElement(xml, "StartBoundary") == Some(start)
    requires XmlElement(xml, "CalendarTrigger") == Some(trigger)
    ensures Matches(xml, wanted)
      <==> && Trim(written.description) == wanted.description
           && Unquoted(Trim(written.executable)) == wanted.executable
           && Trim(written.arguments) == wanted.arguments
           && Includes(start, "T" + wanted.localTime + ":00")
           && TriggerEnabled(trigger) && ScheduleMatches(trigger, wanted.weekdays)
  {
  }

  /** The start boundary shows the one time only. */
  lemma StartShowsTime(definition: Definition, time: string)
    requires IsTime(definition.localTime) && IsTime(time)
    ensures Includes(StartOf(definition), "T" + time + ":00") <==> time == definition.localTime
  {
    var text, pattern := StartOf(definition), "T" + time + ":00";
    if time == definition.localTime { assert At(text, 10, pattern); }
    if place :| At(text, place, pattern) {
      assert text[place] == pattern[0] == 'T';
      OnlyOneT(definition);
      assert text[10..19] == pattern && pattern[1..6] == time && text[11..16] == definition.localTime;
      assert text[10..19][1..6] == text[11..16];
    }
  }

  lemma OnlyOneT(definition: Definition)
    requires IsTime(definition.localTime)
    ensures |StartOf(definition)| == 19
    ensures forall place :: 0 <= place < 19 && StartOf(definition)[place] == 'T' ==> place == 10
  {
    var time := definition.localTime;
    assert StartOf(definition) == "2000-01-01" + (['T'] + [time[0], time[1], time[2], time[3], time[4]] + ":00");
  }

  /** A task written from one definition is found to be as another one wants it exactly when description, program and
      arguments are what remains of the written ones without outer blanks, and quotes around the program, the time is
      the same, it is enabled, and it recurs every day, or every week on the same days with none repeated. */
  lemma TaskIsRecognized(written: Definition, principal: string, enabled: string, interval: string,
                         wanted: Definition)
    requires IsTime(written.localTime) && IsTime(wanted.localTime) && IsSetting(enabled) && IsSetting(interval)
    ensures Matches(TaskXmlWith(written, principal, enabled, interval), wanted)
      <==> && Trim(written.description) == wanted.description
           && Unquoted(Trim(written.executable)) == wanted.executable
           && Trim(written.arguments) == wanted.arguments
           && written.localTime == wanted.localTime
           && enabled != "false" && interval == "1" && SameRecurrence(written.weekdays, wanted.weekdays)
  {
    TimeHasNoBracket(written.localTime);
    DefinitionInXml(written, principal, enabled, interval);
    TriggerIsFound(written, principal, enabled, interval);
    StartIsFound(written, principal, enabled, interval);
    EnabledIsFound(written, enabled, interval);
    StartShowsTime(written, wanted.localTime);
    ScheduleIsRecognized(written, enabled, interval, wanted.weekdays);
    MatchesFound(TaskXmlWith(written, principal, enabled, interval), written, wanted, StartOf(written),
                 Tags(TriggerInside(written, enabled, interval)));
  }

  /** A task just written from a definition is recognized as the definition's exactly when no text loses blanks or
      quotes on the way and no day is listed twice. */
  lemma OwnTaskIsRecognized(definition: Definition, principal: string)
    requires IsTime(definition.localTime)
    ensures Matches(WindowsTaskXml(definition, principal), definition)
      <==> && Trim(definition.description) == definition.description
           && Unquoted(Trim(definition.executable)) == definition.executable
           && Trim(definition.arguments) == definition.arguments
           && (definition.weekdays.Some? ==> AreDistinct(definition.weekdays.value))
  {
    assert "true"[0] != "false"[0];
    TaskIsRecognized(definition, principal, "true", "1", definition);
  }

  lemma DescriptionIsTrimmed(description: string, tail: string)
    requires tail != "" && IsSpace(tail[0]) && !IsSpace(tail[|tail| - 1])
    ensures Trim(description + tail) == description + tail <==> description != "" && !IsSpace(description[0])
  {
    var text := description + tail;
    if description != "" && !IsSpace(description[0]) {
      TrimmedIsItself(text);
    } else {
      assert IsSpace(text[0]);
      TrimStartShortens(text);
      TrimEndShortens(TrimStart(text));
    }
  }

  lemma OwnedDescriptionIsTrimmed(job: Job, fingerprint: string)
    ensures Trim(OwnedDescription(job, fingerprint)) == OwnedDescription(job, fingerprint)
      <==> job.description != "" && !IsSpace(job.description[0])
  {
    var tail := " [canonfig:" + fingerprint + "]";
    assert OwnedDescription(job, fingerprint) == job.description + tail;
    DescriptionIsTrimmed(job.description, tail);
  }

  lemma TrimStartShortens(text: string)
    ensures |TrimStart(text)| <= |text|
    ensures text != "" && IsSpace(text[0]) ==> |TrimStart(text)| < |text|
  {
  }

  lemma TrimEndShortens(text: string)
    ensures |TrimEnd(text)| <= |text|
  {
  }

  /** End to end: an installed job is found to be as wanted exactly when its description starts with no blank, its
      program has no outer blanks or quotes, and it lists no day twice. */
  lemma JobIsRecognized(job: Job, fingerprint: string, principal: string)
    requires IsRenderable(job) && !IsNever(job.calendar)
    ensures var desired := ParseDefinition(Render(job, fingerprint));
      && desired.Some?
      && (Matches(WindowsTaskXml(desired.value, principal), desired.value)
          <==> && job.description != "" && !IsSpace(job.description[0])
               && Unquoted(Trim(job.executable)) == job.executable
               && (job.calendar.Weekly? ==> AreDistinct(job.calendar.weekdays)))
  {
    ParseUndoesRender(job, fingerprint);
    OwnTaskIsRecognized(DefinitionOf(job, fingerprint), principal);
    CommandLineIsTrimmed(job.arguments);
    OwnedDescriptionIsTrimmed(job, fingerprint);
  }
}
