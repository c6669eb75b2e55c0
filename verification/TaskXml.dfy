/** The task XML of `src/machine/windows.layer.ts`, read back by the source's regular expression, and the
    whole way of a job's arguments from the profile to the command line Windows splits. */
module TaskXml {
  import opened Options
  import opened Texts
  import opened CommandLine
  import opened Xml
  import opened TaskDefinition

  // ---------------------------------------------------------------- the task XML

  function WeekdayXmlName(weekday: Weekday): string {
    match weekday
    case Sun => "Sunday" case Mon => "Monday" case Tue => "Tuesday" case Wed => "Wednesday"
    case Thu => "Thursday" case Fri => "Friday" case Sat => "Saturday"
  }

  /** The names in the XML are the English names of the days that the short names stand for. */
  lemma DayNamesAgree(weekday: Weekday)
    ensures WeekdayName(weekday) <= WeekdayXmlName(weekday)
    ensures var name := WeekdayXmlName(weekday); |name| > 3 && name[|name| - 3..] == "day"
    ensures |WeekdayXmlName(weekday)| == match weekday
                                         case Sun => 6 case Mon => 6 case Tue => 7 case Wed => 9
                                         case Thu => 8 case Fri => 6 case Sat => 8
  {
  }

  /** Text cut at every opening bracket: each piece is what stands between one and the next. */
  function Tags(pieces: seq<string>): string {
    if pieces == [] then "" else "<" + pieces[0] + Tags(pieces[1..])
  }

  /** The pieces of an element that holds plain text. */
  function Element(name: string, content: string): seq<string> {
    [name + ">" + content, "/" + name + ">"]
  }

  /** The pieces of an element that holds other elements. */
  function Nested(name: string, attributes: string, inside: seq<string>): seq<string> {
    [name + attributes + ">"] + inside + ["/" + name + ">"]
  }

  function WeekdayTags(weekdays: seq<Weekday>): seq<string> {
    if weekdays == [] then [] else [WeekdayXmlName(weekdays[0]) + " />"] + WeekdayTags(weekdays[1..])
  }

  function ScheduleTags(weekdays: Option<seq<Weekday>>, interval: string): seq<string> {
    match weekdays
    case None => Nested("ScheduleByDay", "", Element("DaysInterval", interval))
    case Some(days) => Nested("ScheduleByWeek", "",
                              Element("WeeksInterval", interval) + Nested("DaysOfWeek", "", WeekdayTags(days)))
  }

  const XML_DECLARATION: string := "?xml version=\"1.0\"" + " encoding=\"UTF-16\"?>"
  const TASK_OPENING: string := "Task version=\"1.2\""
      + (" xmlns=\"http://schemas.microsoft" + ".com/windows/2004/02/mit/task\">")

  function HeaderTags(): seq<string> {
    [XML_DECLARATION, TASK_OPENING, "RegistrationInfo>"]
  }

  function TriggerTags(definition: Definition, enabled: string, interval: string): seq<string> {
    ["/RegistrationInfo>"]
    + Nested("Triggers", "", Nested("CalendarTrigger", "",
             Element("StartBoundary", "2000-01-01T" + definition.localTime + ":00") + Element("Enabled", enabled)
                 + ScheduleTags(definition.weekdays, interval)))
  }

  function PrincipalTags(principal: string): seq<string> {
    Nested("Principals", "", Nested("Principal", " id=\"Author\"",
           Element("UserId", EscapeXml(principal)) + Element("LogonType", "InteractiveToken")
               + Element("RunLevel", "LeastPrivilege")))
  }

  function BatteryTags(): seq<string> {
    Element("DisallowStartIfOnBatteries", "true") + Element("StopIfGoingOnBatteries", "true")
  }

  function LimitTags(): seq<string> {
    Element("AllowHardTerminate", "true") + Element("Enabled", "true") + Element("ExecutionTimeLimit", "PT1H")
  }

  function SettingsTags(): seq<string> {
    Nested("Settings", "", Element("MultipleInstancesPolicy", "IgnoreNew") + BatteryTags() + LimitTags())
  }

  /** `windowsTaskXml`: the trigger is enabled and recurs every day or week. */
  function WindowsTaskXml(definition: Definition, principal: string): string {
    TaskXmlWith(definition, principal, "true", "1")
  }

  /** The same for a trigger that may be disabled and recur less often. */
  function TaskXmlWith(definition: Definition, principal: string, enabled: string, interval: string): string {
    Tags(HeaderTags() + Element("Description", EscapeXml(definition.description))
         + MiddleTags(definition, principal, enabled, interval)
         + Element("Command", EscapeXml(definition.executable))
         + Element("Arguments", EscapeXml(definition.arguments))
         + ["/Exec>", "/Actions>", "/Task>"])
  }

  // ---------------------------------------------------------------- extracting an element

  function BehindBracket(text: string): (rest: Option<string>)
    ensures rest.Some? ==> |rest.value| < |text|
  {
    if text == "" then None else if text[0] == '>' then Some(text[1..]) else BehindBracket(text[1..])
  }

  /** `(?:\s[^>]*)?>`. */
  function OpeningEnd(text: string): (rest: Option<string>)
    ensures rest.Some? ==> |rest.value| < |text|
  {
    if text == "" then None
    else if text[0] == '>' then Some(text[1..])
    else if IsSpace(text[0]) then BehindBracket(text[1..])
    else None
  }

  lemma {:induction false} BehindFirstBracket(text: string, rest: string)
    requires '>' !in text
    ensures BehindBracket(text + ">" + rest) == Some(rest)
  {
    if text == "" {
      assert text + ">" + rest == ">" + rest && (">" + rest)[1..] == rest;
    } else {
      assert (text + ">" + rest)[1..] == text[1..] + ">" + rest && text[0] in text;
      BehindFirstBracket(text[1..], rest);
    }
  }

  /** An opening tag may have attributes behind a blank, and a longer name is another element's. */
  lemma OpeningsAreTold(first: char, attributes: string, rest: string)
    requires '>' !in attributes
    ensures OpeningEnd(">" + rest) == Some(rest)
    ensures IsSpace(first) ==> OpeningEnd([first] + (attributes + ">" + rest)) == Some(rest)
    ensures first != '>' && !IsSpace(first) ==> OpeningEnd([first] + (attributes + ">" + rest)).None?
  {
    assert (">" + rest)[1..] == rest;
    assert ([first] + (attributes + ">" + rest))[1..] == attributes + ">" + rest;
    BehindFirstBracket(attributes, rest);
  }

  /** `([\s\S]*?)` up to the first closing tag. */
  function Content(text: string, closing: string): Option<string> {
    if closing <= text then Some("")
    else if text == "" then None
    else match Content(text[1..], closing) case Some(content) => Some([text[0]] + content) case None => None
  }

  function MatchElement(text: string, name: string): Option<string> {
    if !("<" + name <= text) then None
    else match OpeningEnd(text[|name| + 1..])
      case None => None
      case Some(body) => Content(body, "</" + name + ">")
  }

  function XmlElement(xml: string, name: string): Option<string> {
    match Search(xml, text => MatchElement(text, name))
    case None => None
    case Some(content) => Some(DecodeXml(Trim(content)))
  }

  /** A piece of the XML that cannot start the element called `name`. */
  predicate Skippable(piece: string, name: string) {
    '<' !in piece && Differs(piece, name)
  }

  lemma SkippablePiece(piece: string, name: string)
    requires Skippable(piece, name)
    ensures StartsNowhere("<" + piece, "<" + name)
  {
    assert ("<" + piece)[1..] == piece && ("<" + name)[1..] == name;
    StartsNowhereWithout(piece, "<" + name);
  }

  ghost predicate AllSkippable(pieces: seq<string>, name: string) {
    forall piece :: piece in pieces ==> Skippable(piece, name)
  }

  lemma {:induction false} TagsJoin(left: seq<string>, right: seq<string>)
    ensures Tags(left + right) == Tags(left) + Tags(right)
  {
    if left == [] {
      assert left + right == right;
    } else {
      TagsJoin(left[1..], right);
      assert (left + right)[1..] == left[1..] + right;
    }
  }

  lemma {:induction false} PiecesAreSkipped(pieces: seq<string>, rest: string, name: string)
    requires AllSkippable(pieces, name)
    ensures Search(Tags(pieces) + rest, text => MatchElement(text, name))
            == Search(rest, text => MatchElement(text, name))
  {
    if pieces == [] {
      assert Tags(pieces) + rest == rest;
    } else {
      var more := Tags(pieces[1..]) + rest;
      assert Tags(pieces) + rest == "<" + pieces[0] + more;
      assert pieces[0] in pieces;
      SkippablePiece(pieces[0], name);
      SearchSkips("<" + pieces[0], more, text => MatchElement(text, name), "<" + name);
      assert forall piece :: piece in pieces[1..] ==> piece in pieces;
      PiecesAreSkipped(pieces[1..], rest, name);
    }
  }

  lemma {:induction false} ContentIsFound(content: string, rest: string, closing: string)
    requires closing != "" && closing[0] == '<' && '<' !in content && closing <= rest
    ensures Content(content + rest, closing) == Some(content)
  {
    if content == "" {
      assert content + rest == rest;
    } else {
      assert (content + rest)[1..] == content[1..] + rest && content[0] in content;
      ContentIsFound(content[1..], rest, closing);
      assert content == [content[0]] + content[1..];
    }
  }

  lemma ElementText(before: string, name: string, escaped: string, rest: string)
    ensures before + ("<" + (name + ">" + escaped) + ("<" + ("/" + name + ">") + rest))
            == before + ("<" + name + (">" + (escaped + ("</" + name + ">" + rest))))
  {
    assert "</" + name + ">" == "<" + ("/" + name + ">");
  }

  lemma ElementIsMatched(name: string, escaped: string, rest: string)
    requires '<' !in escaped
    ensures MatchElement("<" + name + (">" + (escaped + ("</" + name + ">" + rest))), name) == Some(escaped)
  {
    var closing := "</" + name + ">";
    var body := escaped + (closing + rest);
    var text := "<" + name + (">" + body);
    assert text[|name| + 1..] == ">" + body && (">" + body)[1..] == body;
    ContentIsFound(escaped, closing + rest, closing);
  }

  /** The element behind skippable pieces holds its value, trimmed. */
  lemma ElementIsFound(pieces: seq<string>, name: string, value: string, rest: string)
    requires AllSkippable(pieces, name)
    ensures XmlElement(Tags(pieces) + ("<" + (name + ">" + EscapeXml(value)) + ("<" + ("/" + name + ">") + rest)), name)
            == Some(Trim(value))
  {
    var escaped := EscapeXml(value);
    EscapeXmlIsEscaped(value);
    EscapedHasNoBracket(value);
    ElementText(Tags(pieces), name, escaped, rest);
    ElementIsMatched(name, escaped, rest);
    PiecesAreSkipped(pieces, "<" + name + (">" + (escaped + ("</" + name + ">" + rest))), name);
    EscapedValueIsTrimmed(value);
  }

  // ---------------------------------------------------------------- nothing else can be mistaken for the element

  predicate IsLookedFor(name: string) {
    |name| > 1
      && ((name[0] == 'A' && name[1] == 'r') || (name[0] == 'C' && name[1] == 'o')
          || (name[0] == 'D' && name[1] == 'e'))
  }

  /** An element name that is none of those looked for, by its first two letters. */
  predicate IsOther(name: string) {
    '<' !in name && |name| > 1 && (name[0] != 'A' || name[1] != 'r') && (name[0] != 'C' || name[1] != 'o')
      && (name[0] != 'D' || name[1] != 'e')
  }

  lemma OtherIsSkipped(piece: string, name: string)
    requires IsOther(piece) && IsLookedFor(name)
    ensures Skippable(piece, name)
  {
    assert piece[1..][0] == piece[1] && name[1..][0] == name[1];
  }

  lemma ElementIsSkipped(other: string, content: string, name: string)
    requires IsOther(other) && '<' !in content && IsLookedFor(name)
    ensures AllSkippable(Element(other, content), name)
  {
    OtherIsSkipped(other + ">" + content, name);
    OtherIsSkipped("/" + other + ">", name);
  }

  lemma SkippableTogether(left: seq<string>, right: seq<string>, name: string)
    requires AllSkippable(left, name) && AllSkippable(right, name)
    ensures AllSkippable(left + right, name)
  {
  }

  lemma NestedIsSkipped(other: string, attributes: string, inside: seq<string>, name: string)
    requires IsOther(other) && '<' !in attributes && AllSkippable(inside, name) && IsLookedFor(name)
    ensures AllSkippable(Nested(other, attributes, inside), name)
  {
    OtherIsSkipped(other + attributes + ">", name);
    OtherIsSkipped("/" + other + ">", name);
  }

  lemma DeclarationIsSkipped(name: string)
    requires IsLookedFor(name)
    ensures Skippable(XML_DECLARATION, name)
  {
    OtherIsSkipped(XML_DECLARATION, name);
  }

  lemma TaskOpeningIsSkipped(name: string)
    requires IsLookedFor(name)
    ensures Skippable(TASK_OPENING, name)
  {
    assert '<' !in "Task version=\"1.2\"" && '<' !in " xmlns=\"http://schemas.microsoft"
           && '<' !in ".com/windows/2004/02/mit/task\">";
    OtherIsSkipped(TASK_OPENING, name);
  }

  lemma HeaderIsSkipped(name: string)
    requires IsLookedFor(name)
    ensures AllSkippable(HeaderTags(), name)
  {
    DeclarationIsSkipped(name);
    TaskOpeningIsSkipped(name);
    OtherIsSkipped("RegistrationInfo>", name);
  }

  lemma {:induction false} WeekdaysAreSkipped(weekdays: seq<Weekday>, name: string)
    requires IsLookedFor(name)
    ensures AllSkippable(WeekdayTags(weekdays), name)
  {
    if weekdays != [] {
      WeekdaysAreSkipped(weekdays[1..], name);
      OtherIsSkipped(WeekdayXmlName(weekdays[0]) + " />", name);
    }
  }

  lemma ScheduleIsSkipped(weekdays: Option<seq<Weekday>>, interval: string, name: string)
    requires IsLookedFor(name) && '<' !in interval
    ensures AllSkippable(ScheduleTags(weekdays, interval), name)
  {
    match weekdays
    case None =>
      ElementIsSkipped("DaysInterval", interval, name);
      NestedIsSkipped("ScheduleByDay", "", Element("DaysInterval", interval), name);
    case Some(days) =>
      ElementIsSkipped("WeeksInterval", interval, name);
      WeekdaysAreSkipped(days, name);
      NestedIsSkipped("DaysOfWeek", "", WeekdayTags(days), name);
      SkippableTogether(Element("WeeksInterval", interval), Nested("DaysOfWeek", "", WeekdayTags(days)), name);
      NestedIsSkipped("ScheduleByWeek", "",
                      Element("WeeksInterval", interval) + Nested("DaysOfWeek", "", WeekdayTags(days)), name);
  }

  lemma TriggerIsSkipped(definition: Definition, enabled: string, interval: string, name: string)
    requires IsLookedFor(name) && '<' !in definition.localTime && '<' !in enabled && '<' !in interval
    ensures AllSkippable(TriggerTags(definition, enabled, interval), name)
  {
    var start, switch, schedule := Element("StartBoundary", "2000-01-01T" + definition.localTime + ":00"),
                                    Element("Enabled", enabled),
                                    ScheduleTags(definition.weekdays, interval);
    OtherIsSkipped("/RegistrationInfo>", name);
    ElementIsSkipped("StartBoundary", "2000-01-01T" + definition.localTime + ":00", name);
    ElementIsSkipped("Enabled", enabled, name);
    ScheduleIsSkipped(definition.weekdays, interval, name);
    SkippableTogether(start, switch, name);
    SkippableTogether(start + switch, schedule, name);
    NestedIsSkipped("CalendarTrigger", "", start + switch + schedule, name);
    NestedIsSkipped("Triggers", "", Nested("CalendarTrigger", "", start + switch + schedule), name);
    SkippableTogether(["/RegistrationInfo>"],
                      Nested("Triggers", "", Nested("CalendarTrigger", "", start + switch + schedule)), name);
  }

  lemma PrincipalIsSkipped(principal: string, name: string)
    requires IsLookedFor(name)
    ensures AllSkippable(PrincipalTags(principal), name)
  {
    var user, logon, level := Element("UserId", EscapeXml(principal)), Element("LogonType", "InteractiveToken"),
                              Element("RunLevel", "LeastPrivilege");
    EscapeXmlIsEscaped(principal);
    EscapedHasNoBracket(principal);
    ElementIsSkipped("UserId", EscapeXml(principal), name);
    ElementIsSkipped("LogonType", "InteractiveToken", name);
    ElementIsSkipped("RunLevel", "LeastPrivilege", name);
    SkippableTogether(user, logon, name);
    SkippableTogether(user + logon, level, name);
    NestedIsSkipped("Principal", " id=\"Author\"", user + logon + level, name);
    NestedIsSkipped("Principals", "", Nested("Principal", " id=\"Author\"", user + logon + level), name);
  }

  lemma BatteryIsSkipped(name: string)
    requires IsLookedFor(name)
    ensures AllSkippable(BatteryTags(), name)
  {
    ElementIsSkipped("DisallowStartIfOnBatteries", "true", name);
    ElementIsSkipped("StopIfGoingOnBatteries", "true", name);
  }

  lemma LimitsAreSkipped(name: string)
    requires IsLookedFor(name)
    ensures AllSkippable(LimitTags(), name)
  {
    ElementIsSkipped("AllowHardTerminate", "true", name);
    ElementIsSkipped("Enabled", "true", name);
    ElementIsSkipped("ExecutionTimeLimit", "PT1H", name);
    SkippableTogether(Element("AllowHardTerminate", "true"), Element("Enabled", "true"), name);
  }

  lemma SettingsAreSkipped(name: string)
    requires IsLookedFor(name)
    ensures AllSkippable(SettingsTags(), name)
  {
    var policy := Element("MultipleInstancesPolicy", "IgnoreNew");
    ElementIsSkipped("MultipleInstancesPolicy", "IgnoreNew", name);
    BatteryIsSkipped(name);
    LimitsAreSkipped(name);
    SkippableTogether(policy, BatteryTags(), name);
    SkippableTogether(policy + BatteryTags(), LimitTags(), name);
    NestedIsSkipped("Settings", "", policy + BatteryTags() + LimitTags(), name);
  }

  /** Everything between the description and the command. */
  function MiddleTags(definition: Definition, principal: string, enabled: string, interval: string): seq<string> {
    TriggerTags(definition, enabled, interval) + PrincipalTags(principal) + SettingsTags()
        + ["Actions Context=\"Author\">", "Exec>"]
  }

  lemma MiddleIsSkipped(definition: Definition, principal: string, enabled: string, interval: string, name: string)
    requires IsLookedFor(name) && '<' !in definition.localTime && '<' !in enabled && '<' !in interval
    ensures AllSkippable(MiddleTags(definition, principal, enabled, interval), name)
  {
    TriggerIsSkipped(definition, enabled, interval, name);
    PrincipalIsSkipped(principal, name);
    SettingsAreSkipped(name);
    OtherIsSkipped("Actions Context=\"Author\">", name);
    OtherIsSkipped("Exec>", name);
    SkippableTogether(TriggerTags(definition, enabled, interval), PrincipalTags(principal), name);
    SkippableTogether(TriggerTags(definition, enabled, interval) + PrincipalTags(principal), SettingsTags(), name);
  }

  /** Another element's value cannot be mistaken for the element either: it is escaped. */
  lemma ValueIsSkipped(other: string, value: string, name: string)
    requires '<' !in other && Differs(other, name) && IsLookedFor(name)
    ensures AllSkippable(Element(other, EscapeXml(value)), name)
  {
    EscapeXmlIsEscaped(value);
    EscapedHasNoBracket(value);
    DiffersInLonger(other, ">" + EscapeXml(value), name);
    assert other + ">" + EscapeXml(value) == other + (">" + EscapeXml(value));
    assert ("/" + other + ">")[0] == '/';
  }

  // ---------------------------------------------------------------- end to end

  /** An element of the task XML, by what stands before it and behind it. */
  lemma ElementOfXml(before: seq<string>, name: string, value: string, after: seq<string>)
    requires AllSkippable(before, name)
    ensures XmlElement(Tags(before + Element(name, EscapeXml(value)) + after), name) == Some(Trim(value))
  {
    var element := Element(name, EscapeXml(value));
    TagsJoin(before + element, after);
    TagsJoin(before, element);
    assert element[1..] == ["/" + name + ">"] && element[1..][1..] == [];
    assert Tags(element[1..]) == "<" + ("/" + name + ">") + Tags(element[1..][1..]);
    ElementIsFound(before, name, value, Tags(after));
    ElementPieces(Tags(before), "<" + (name + ">" + EscapeXml(value)), "<" + ("/" + name + ">"), Tags(after));
  }

  lemma ElementPieces(a: string, b: string, c: string, d: string)
    ensures a + (b + (c + "")) + d == a + (b + (c + d))
    ensures a + (b + c) + d == a + b + (c + d) == a + (b + (c + d))
  {
  }

  lemma {:induction false} QuotedEndsInQuote(value: string, held: nat)
    ensures var text := QuotedRest(value, held); text != "" && text[|text| - 1] == '"'
    decreases |value|
  {
    if value != "" { QuotedEndsInQuote(value[1..], if value[0] == '\\' then held + 1 else 0); }
  }

  lemma ArgumentEnds(value: string)
    ensures var text := CommandLineArgument(value); text != "" && !IsSpace(text[0]) && !IsSpace(text[|text| - 1])
  {
    if IsPlain(value) {
      assert value[0] in value && value[|value| - 1] in value;
    } else {
      QuotedEndsInQuote(value, 0);
    }
  }

  /** Blanks inside arguments are quoted, so the command line neither starts nor ends with one. */
  lemma {:induction false} CommandLineIsTrimmed(arguments: seq<string>)
    ensures var line := JoinedCommandLine(arguments); line != "" ==> !IsSpace(line[0]) && !IsSpace(line[|line| - 1])
    ensures Trim(JoinedCommandLine(arguments)) == JoinedCommandLine(arguments)
  {
    if arguments != [] {
      var texts, others := CommandLineArguments(arguments), arguments[1..];
      assert texts[1..] == CommandLineArguments(others);
      ArgumentEnds(arguments[0]);
      CommandLineIsTrimmed(others);
      if others != [] {
        ArgumentEnds(others[0]);
        JoinThen(texts, " ", "");
        JoinThen(texts[1..], " ", "");
        assert Join(texts, " ") + "" == Join(texts, " ") && Join(texts[1..], " ") + "" == Join(texts[1..], " ");
        assert Join(texts, " ") == texts[0] + (" " + Join(texts[1..], " "));
        assert Join(texts[1..], " ") != "";
      }
    }
  }

  lemma DefinitionInXml(definition: Definition, principal: string, enabled: string, interval: string)
    requires '<' !in definition.localTime && '<' !in enabled && '<' !in interval
    ensures var xml := TaskXmlWith(definition, principal, enabled, interval);
            && XmlElement(xml, "Description") == Some(Trim(definition.description))
            && XmlElement(xml, "Command") == Some(Trim(definition.executable))
            && XmlElement(xml, "Arguments") == Some(Trim(definition.arguments))
  {
    DescriptionInXml(definition, principal, enabled, interval);
    CommandInXml(definition, principal, enabled, interval);
    ArgumentsInXml(definition, principal, enabled, interval);
  }

  const CLOSING_TAGS: seq<string> := ["/Exec>", "/Actions>", "/Task>"]

  lemma DescriptionInXml(definition: Definition, principal: string, enabled: string, interval: string)
    ensures XmlElement(TaskXmlWith(definition, principal, enabled, interval), "Description")
            == Some(Trim(definition.description))
  {
    var rest := MiddleTags(definition, principal, enabled, interval)
                + (Element("Command", EscapeXml(definition.executable))
                   + (Element("Arguments", EscapeXml(definition.arguments)) + CLOSING_TAGS));
    HeaderIsSkipped("Description");
    ElementOfXml(HeaderTags(), "Description", definition.description, rest);
    XmlParts(HeaderTags(), Element("Description", EscapeXml(definition.description)),
             MiddleTags(definition, principal, enabled, interval),
             Element("Command", EscapeXml(definition.executable)),
             Element("Arguments", EscapeXml(definition.arguments)),
             CLOSING_TAGS);
  }

  lemma XmlParts(a: seq<string>, b: seq<string>, c: seq<string>, d: seq<string>, e: seq<string>, f: seq<string>)
    ensures a + b + c + d + e + f == a + b + (c + (d + (e + f))) == (a + b + c) + d + (e + f) == (a + b + c + d) + e + f
  {
  }

  lemma BeforeCommandIsSkipped(definition: Definition, principal: string, enabled: string, interval: string,
                               name: string)
    requires IsLookedFor(name) && Differs("Description", name)
    requires '<' !in definition.localTime && '<' !in enabled && '<' !in interval
    ensures AllSkippable(HeaderTags() + Element("Description", EscapeXml(definition.description))
                         + MiddleTags(definition, principal, enabled, interval), name)
  {
    var description := Element("Description", EscapeXml(definition.description));
    HeaderIsSkipped(name);
    ValueIsSkipped("Description", definition.description, name);
    MiddleIsSkipped(definition, principal, enabled, interval, name);
    SkippableTogether(HeaderTags(), description, name);
    SkippableTogether(HeaderTags() + description, MiddleTags(definition, principal, enabled, interval), name);
  }

  lemma CommandInXml(definition: Definition, principal: string, enabled: string, interval: string)
    requires '<' !in definition.localTime && '<' !in enabled && '<' !in interval
    ensures XmlElement(TaskXmlWith(definition, principal, enabled, interval), "Command")
            == Some(Trim(definition.executable))
  {
    var description, middle := Element("Description", EscapeXml(definition.description)),
                               MiddleTags(definition, principal, enabled, interval);
    var command, arguments := Element("Command", EscapeXml(definition.executable)),
                              Element("Arguments", EscapeXml(definition.arguments));
    BeforeCommandIsSkipped(definition, principal, enabled, interval, "Command");
    ElementOfXml(HeaderTags() + description + middle, "Command", definition.executable, arguments + CLOSING_TAGS);
    XmlParts(HeaderTags(), description, middle, command, arguments, CLOSING_TAGS);
  }

  lemma ArgumentsInXml(definition: Definition, principal: string, enabled: string, interval: string)
    requires '<' !in definition.localTime && '<' !in enabled && '<' !in interval
    ensures XmlElement(TaskXmlWith(definition, principal, enabled, interval), "Arguments")
            == Some(Trim(definition.arguments))
  {
    var description, middle := Element("Description", EscapeXml(definition.description)),
                               MiddleTags(definition, principal, enabled, interval);
    var command, arguments := Element("Command", EscapeXml(definition.executable)),
                              Element("Arguments", EscapeXml(definition.arguments));
    BeforeCommandIsSkipped(definition, principal, enabled, interval, "Arguments");
    ValueIsSkipped("Command", definition.executable, "Arguments");
    SkippableTogether(HeaderTags() + description + middle, command, "Arguments");
    ElementOfXml(HeaderTags() + description + middle + command, "Arguments", definition.arguments, CLOSING_TAGS);
    XmlParts(HeaderTags(), description, middle, command, arguments, CLOSING_TAGS);
  }

  lemma TimeHasNoBracket(time: string)
    requires IsTime(time)
    ensures '<' !in time
  {
    assert time == [time[0], time[1], time[2], time[3], time[4]];
  }

  /** From the job to the scheduler: rendered, parsed, written as XML and read again, the command line
      splits into exactly the job's arguments; program and description come through but for outer blanks. */
  lemma JobReachesScheduler(job: Job, fingerprint: string, principal: string)
    requires IsRenderable(job)
    ensures var parsed := ParseDefinition(Render(job, fingerprint));
            && (parsed.None? <==> IsNever(job.calendar))
            && (parsed.Some? ==>
                  var xml := WindowsTaskXml(parsed.value, principal);
                  && XmlElement(xml, "Arguments").Some?
                  && SplitArguments(XmlElement(xml, "Arguments").value) == job.arguments
                  && XmlElement(xml, "Command") == Some(Trim(job.executable))
                  && XmlElement(xml, "Description") == Some(Trim(OwnedDescription(job, fingerprint)))
                  && parsed.value.localTime == job.calendar.localTime)
  {
    ParseUndoesRender(job, fingerprint);
    TimeHasNoBracket(job.calendar.localTime);
    DefinitionInXml(DefinitionOf(job, fingerprint), principal, "true", "1");
    CommandLineIsTrimmed(job.arguments);
    SplitUndoesJoin(job.arguments);
  }
}
