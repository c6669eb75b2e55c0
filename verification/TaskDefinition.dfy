/** Scheduled jobs on Windows (`src/machine/windows.layer.ts`): a job is rendered as PowerShell text, the
    text is parsed back by regular expressions, written as task XML, and read from the XML again. */
module TaskDefinition {
  import opened Options
  import opened Texts
  import opened CommandLine

  datatype Weekday = Sun | Mon | Tue | Wed | Thu | Fri | Sat

  datatype Calendar = Daily(localTime: string) | Weekly(weekdays: seq<Weekday>, localTime: string)

  datatype Job = Job(name: string, description: string, executable: string, arguments: seq<string>, calendar: Calendar)

  /** The rendered job: the text that makes the action, and the text that registers it. */
  datatype Rendered = Rendered(serviceName: string, service: string, schedule: string)

  datatype Definition = Definition(taskName: string, description: string, executable: string, arguments: string,
                                   localTime: string, weekdays: Option<seq<Weekday>>)

  function WeekdayName(weekday: Weekday): string {
    match weekday
    case Sun => "Sun" case Mon => "Mon" case Tue => "Tue" case Wed => "Wed"
    case Thu => "Thu" case Fri => "Fri" case Sat => "Sat"
  }

  function WeekdayNames(weekdays: seq<Weekday>): seq<string> {
    if weekdays == [] then [] else [WeekdayName(weekdays[0])] + WeekdayNames(weekdays[1..])
  }

  /** `[0-2]\d:[0-5]\d`, which every accepted local time matches. */
  predicate IsTime(text: string) {
    && |text| == 5 && '0' <= text[0] <= '2' && IsDigit(text[1]) && text[2] == ':' && '0' <= text[3] <= '5'
    && IsDigit(text[4])
  }

  predicate IsNameChar(c: char) {
    IsDigit(c) || 'a' <= c <= 'z' || 'A' <= c <= 'Z' || c == '_' || c == '.' || c == '-'
  }

  /** What `renderTaskSchedulerJob` checks, as far as the text depends on it. */
  ghost predicate IsRenderable(job: Job) {
    && job.name != "" && (forall c :: c in job.name ==> IsNameChar(c))
    && IsTime(job.calendar.localTime)
  }

  /** A weekly calendar without a day, which rendering lets through. */
  predicate IsNever(calendar: Calendar) {
    calendar.Weekly? && calendar.weekdays == []
  }

  function PowerShellLiteral(value: string): string {
    "'" + ReplaceAll(value, "'", "''") + "'"
  }

  function DecodePowerShellLiteral(value: string): string {
    ReplaceAll(value, "''", "'")
  }

  // The fixed pieces of the rendered text, cut where a regular expression starts or ends.
  const ACTION_PREFIX: string := "$Action = New" + ("-" + "ScheduledTaskAction ")
  const EXECUTE: string := "-Execute "
  const ARGUMENT: string := " -Argument "
  const PRINCIPAL_AND_SETTINGS: string :=
    "\r\n" + "$Principal = New-ScheduledTaskPrincipal -UserId $env:USERNAME -LogonType Interactive"
    + "\r\n$Settings = New-ScheduledTaskSettingsSet -ExecutionTimeLimit (New-TimeSpan -Hours 1)"
  const TRIGGER_PREFIX: string := "$Trigger = New" + ("-" + "ScheduledTaskTrigger ")
  const DAILY_AT: string := ("-" + "Daily ") + ("-" + "At ")
  const WEEKLY_ON: string := ("-" + "Weekly ") + ("-" + "DaysOfWeek ")
  const AT: string := " " + ("-" + "At ")
  const REGISTER: string := "\r\nRegister" + ("-" + "ScheduledTask ") + ("-" + "TaskName ")
  const DESCRIPTION: string := "-Description" + " "
  const REGISTER_TAIL: string := " "
      + ("-Action $Action " + ("-Trigger $Trigger " + ("-Principal $Principal " + "-Settings $Settings")))

  function Trigger(calendar: Calendar): string {
    match calendar
    case Daily(localTime) => DAILY_AT + PowerShellLiteral(localTime)
    case Weekly(weekdays, localTime) =>
      WEEKLY_ON + Join(WeekdayNames(weekdays), ",") + AT + PowerShellLiteral(localTime)
  }

  function OwnedDescription(job: Job, fingerprint: string): string {
    job.description + " [canonfig:" + fingerprint + "]"
  }

  function TaskName(job: Job): string {
    "Canonfig\\" + job.name
  }

  function Registration(job: Job, fingerprint: string): string {
    REGISTER + PowerShellLiteral(TaskName(job)) + " " + DESCRIPTION
        + PowerShellLiteral(OwnedDescription(job, fingerprint)) + REGISTER_TAIL
  }

  function Render(job: Job, fingerprint: string): Rendered {
    Rendered(
      TaskName(job),
      ACTION_PREFIX + EXECUTE + PowerShellLiteral(job.executable)
      + ARGUMENT + PowerShellLiteral(JoinedCommandLine(job.arguments)) + PRINCIPAL_AND_SETTINGS,
      TRIGGER_PREFIX + Trigger(job.calendar) + Registration(job, fingerprint))
  }

  // ---------------------------------------------------------------- regular expressions

  /** `((?:''|[^'])*)'` followed by `follow`: the alternatives in the order the engine tries them. */
  function Group<T>(text: string, follow: string -> Option<T>): Option<(string, T)> {
    if "''" <= text then
      match Group(text[2..], follow)
      case Some((captured, rest)) => Some(("''" + captured, rest))
      case None => Close(text, follow)
    else if text != "" && text[0] != '\'' then
      match Group(text[1..], follow)
      case Some((captured, rest)) => Some(([text[0]] + captured, rest))
      case None => None
    else Close(text, follow)
  }

  function Close<T>(text: string, follow: string -> Option<T>): Option<(string, T)> {
    if text == "" || text[0] != '\'' then None
    else match follow(text[1..]) case Some(rest) => Some(("", rest)) case None => None
  }

  /** `exec`: the leftmost place where the expression matches. */
  function Search<T>(text: string, at: string -> Option<T>): Option<T> {
    if at(text).Some? then at(text) else if text == "" then None else Search(text[1..], at)
  }

  function Literally<T>(text: string, pattern: string, follow: string -> Option<T>): Option<T> {
    if pattern <= text then follow(text[|pattern|..]) else None
  }

  function Done(text: string): Option<string> {
    Some(text)
  }

  function MatchArgument(text: string): Option<(string, string)> {
    Literally(text, ARGUMENT + "'", rest => Group(rest, Done))
  }

  function MatchAction(text: string): Option<(string, (string, string))> {
    Literally(text, EXECUTE + "'", rest => Group(rest, MatchArgument))
  }

  function MatchDescription(text: string): Option<(string, string)> {
    Literally(text, DESCRIPTION + "'", rest => Group(rest, Done))
  }

  function MatchTime(text: string): Option<string> {
    if |text| >= 6 && IsTime(text[..5]) && text[5] == '\'' then Some(text[..5]) else None
  }

  function MatchDaily(text: string): Option<string> {
    Literally(text, DAILY_AT + "'", MatchTime)
  }

  function MatchWeekday(text: string): Option<Weekday> {
    if "Mon" <= text then Some(Mon) else if "Tue" <= text then Some(Tue) else if "Wed" <= text then Some(Wed)
    else if "Thu" <= text then Some(Thu) else if "Fri" <= text then Some(Fri) else if "Sat" <= text then Some(Sat)
    else if "Sun" <= text then Some(Sun) else None
  }

  /** A weekday, and as many more behind commas as there are, then the time. */
  function MatchWeekdays(text: string): Option<(seq<Weekday>, string)> {
    match MatchWeekday(text)
    case None => None
    case Some(weekday) =>
      var rest := text[3..];
      match (if "," <= rest then MatchWeekdays(rest[1..]) else None)
      case Some((weekdays, time)) => Some(([weekday] + weekdays, time))
      case None =>
        match Literally(rest, AT + "'", MatchTime)
        case Some(time) => Some(([weekday], time))
        case None => None
  }

  function MatchWeekly(text: string): Option<(seq<Weekday>, string)> {
    Literally(text, WEEKLY_ON, MatchWeekdays)
  }

  function ParseDefinition(rendered: Rendered): Option<Definition> {
    var action := Search(rendered.service, MatchAction);
    var description := Search(rendered.schedule, MatchDescription);
    var daily := Search(rendered.schedule, MatchDaily);
    var weekly := Search(rendered.schedule, MatchWeekly);
    if action.None? || description.None? || (daily.None? && weekly.None?) then None
    else Some(Definition(
                rendered.serviceName,
                DecodePowerShellLiteral(description.value.0),
                DecodePowerShellLiteral(action.value.0),
                DecodePowerShellLiteral(action.value.1.0),
                if daily.Some? then daily.value else weekly.value.1,
                if weekly.Some? then Some(weekly.value.0) else None))
  }

  // ---------------------------------------------------------------- literals survive

  function Doubled(value: string): string {
    ReplaceAll(value, "'", "''")
  }

  lemma DoubledStep(value: string)
    requires value != ""
    ensures Doubled(value) == (if value[0] == '\'' then "''" else [value[0]]) + Doubled(value[1..])
  {
    assert value == [value[0]] + value[1..];
    if value[0] == '\'' { ReplaceHere("'", value[1..], "''"); }
    else { ReplaceSkips([value[0]], value[1..], "'", "''"); }
  }

  lemma {:induction false} LiteralSurvives(value: string)
    ensures DecodePowerShellLiteral(Doubled(value)) == value
  {
    if value != "" {
      DoubledStep(value);
      LiteralSurvives(value[1..]);
      assert value == [value[0]] + value[1..];
      if value[0] == '\'' { ReplaceHere("''", Doubled(value[1..]), "'"); }
      else { ReplaceSkips([value[0]], Doubled(value[1..]), "''", "'"); }
    }
  }

  /** The group captures the whole literal, and matching goes on behind its closing quote. */
  lemma {:induction false} GroupReadsLiteral<T>(value: string, rest: string, follow: string -> Option<T>)
    requires (rest == "" || rest[0] != '\'') && follow(rest).Some?
    ensures Group(Doubled(value) + "'" + rest, follow) == Some((Doubled(value), follow(rest).value))
    decreases |value|
  {
    LiteralText(value, rest);
    if value != "" { GroupReadsLiteral(value[1..], rest, follow); }
  }

  /** The text of a literal's inside, up to its closing quote and beyond. */
  lemma LiteralText(value: string, rest: string)
    ensures var text := Doubled(value) + "'" + rest;
            if value == ""
            then text == "'" + rest && text[1..] == rest && (rest == "" || rest[0] != '\'' ==> !("''" <= text))
            else if value[0] == '\'' then "''" <= text && text[2..] == Doubled(value[1..]) + "'" + rest
            else text[0] == value[0] && text[1..] == Doubled(value[1..]) + "'" + rest
  {
    if value != "" { DoubledStep(value); }
  }

  lemma {:induction false} SearchSkips<T>(prefix: string, rest: string, at: string -> Option<T>, pattern: string)
    requires StartsNowhere(prefix, pattern) && forall text :: at(text).Some? ==> pattern <= text
    ensures Search(prefix + rest, at) == Search(rest, at)
  {
    if prefix == "" {
      assert prefix + rest == rest;
    } else {
      DiffersMeaning(prefix, rest, pattern);
      assert (prefix + rest)[1..] == prefix[1..] + rest;
      SearchSkips(prefix[1..], rest, at, pattern);
    }
  }

  // ---------------------------------------------------------------- the action

  /** A piece of text with one dash, at its start, that soon differs from the pattern. */
  lemma OneDash(body: string, pattern: string)
    requires '-' !in body && |pattern| > 1 && pattern[0] == '-' && Differs(body, pattern[1..])
    ensures StartsNowhere("-" + body, pattern)
  {
    assert ("-" + body)[1..] == body;
    StartsNowhereWithout(body, pattern);
  }

  lemma WordAndOption(word: string, option: string, pattern: string)
    requires '-' !in word && '-' !in option && |pattern| > 1 && pattern[0] == '-' && Differs(option, pattern[1..])
    ensures StartsNowhere(word + ("-" + option), pattern)
  {
    StartsNowhereWithout(word, pattern);
    OneDash(option, pattern);
    StartsNowhereInBoth(word, "-" + option, pattern);
  }

  lemma ActionPrefixIsSkipped()
    ensures StartsNowhere(ACTION_PREFIX, EXECUTE + "'")
  {
    assert (EXECUTE + "'")[1..][0] == 'E';
    WordAndOption("$Action = New", "ScheduledTaskAction ", EXECUTE + "'");
  }

  /** A literal in its place: the pattern that looks for it ends with its opening quote. */
  lemma LiteralInPlace(before: string, value: string, rest: string)
    ensures before + PowerShellLiteral(value) + rest == before + "'" + (Doubled(value) + "'" + rest)
  {
  }

  lemma LiterallyHere<T>(pattern: string, rest: string, follow: string -> Option<T>)
    ensures Literally(pattern + rest, pattern, follow) == follow(rest)
  {
    assert (pattern + rest)[|pattern|..] == rest;
  }

  /** What follows the executable in the service text, seen by the expression's second half. */
  lemma ArgumentIsMatched(commandLine: string, rest: string)
    requires rest != "" && rest[0] != '\''
    ensures MatchArgument(ARGUMENT + PowerShellLiteral(commandLine) + rest) == Some((Doubled(commandLine), rest))
  {
    LiteralInPlace(ARGUMENT, commandLine, rest);
    GroupReadsLiteral(commandLine, rest, Done);
    LiterallyHere(ARGUMENT + "'", Doubled(commandLine) + "'" + rest, text => Group(text, Done));
  }

  lemma ActionIsMatched(executable: string, commandLine: string, rest: string)
    requires rest != "" && rest[0] != '\''
    ensures MatchAction(EXECUTE + PowerShellLiteral(executable) + (ARGUMENT + PowerShellLiteral(commandLine) + rest))
            == Some((Doubled(executable), (Doubled(commandLine), rest)))
  {
    var tail := ARGUMENT + PowerShellLiteral(commandLine) + rest;
    ArgumentIsMatched(commandLine, rest);
    LiteralInPlace(EXECUTE, executable, tail);
    GroupReadsLiteral(executable, tail, MatchArgument);
    LiterallyHere(EXECUTE + "'", Doubled(executable) + "'" + tail, text => Group(text, MatchArgument));
  }

  lemma ActionIsFound(executable: string, commandLine: string, rest: string)
    requires rest != "" && rest[0] != '\''
    ensures var service := ACTION_PREFIX + EXECUTE + PowerShellLiteral(executable) + ARGUMENT
            + PowerShellLiteral(commandLine) + rest;
            Search(service, MatchAction) == Some((Doubled(executable), (Doubled(commandLine), rest)))
  {
    var text := EXECUTE + PowerShellLiteral(executable) + (ARGUMENT + PowerShellLiteral(commandLine) + rest);
    ActionIsMatched(executable, commandLine, rest);
    ActionPrefixIsSkipped();
    SearchSkips(ACTION_PREFIX, text, MatchAction, EXECUTE + "'");
    Regroup(ACTION_PREFIX, EXECUTE, PowerShellLiteral(executable), ARGUMENT, PowerShellLiteral(commandLine), rest);
  }

  lemma Regroup(a: string, b: string, c: string, d: string, e: string, f: string)
    ensures a + b + c + d + e + f == a + (b + c + (d + e + f))
  {
  }

  // ---------------------------------------------------------------- the description

  /** A name without blanks or quotes, closed by a quote, differs from a pattern that has a blank before its quote. */
  lemma {:induction false} NameDiffers(name: string, word: string)
    requires ' ' !in name && '\'' !in word
    ensures Differs(name + "'", word + " '")
  {
    if name != "" && word != "" && name[0] == word[0] {
      assert (name + "'")[1..] == name[1..] + "'" && (word + " '")[1..] == word[1..] + " '";
      assert ' ' !in name[1..] && '\'' !in word[1..];
      NameDiffers(name[1..], word[1..]);
    } else if name != "" {
      assert name[0] in name;
    } else if word != "" {
      assert word[0] in word;
    }
  }

  lemma {:induction false} NameIsSkipped(name: string, word: string)
    requires ' ' !in name && word != "" && '\'' !in word && word[0] != ' '
    ensures StartsNowhere(name + "'", word + " " + "'")
  {
    NameDiffers(name, word);
    assert word + " '" == word + " " + "'";
    if name != "" {
      assert (name + "'")[1..] == name[1..] + "'" && ' ' !in name[1..];
      NameIsSkipped(name[1..], word);
    } else {
      assert (name + "'")[1..] == "";
    }
  }

  lemma {:induction false} PlainIsNotDoubled(value: string)
    requires '\'' !in value
    ensures Doubled(value) == value
  {
    if value != "" {
      DoubledStep(value);
      assert '\'' !in value[1..] && value[0] in value;
      PlainIsNotDoubled(value[1..]);
      assert value == [value[0]] + value[1..];
    }
  }

  /** The beginning of the schedule text holds none of the options that are looked for later. */
  lemma TriggerPrefixIsSkipped(pattern: string)
    requires |pattern| > 1 && pattern[0] == '-' && pattern[1] != 'S'
    ensures StartsNowhere(TRIGGER_PREFIX, pattern)
  {
    assert pattern[1..][0] == pattern[1];
    WordAndOption("$Trigger = New", "ScheduledTaskTrigger ", pattern);
  }

  lemma RegisterIsSkipped(pattern: string)
    requires |pattern| > 1 && pattern[0] == '-' && pattern[1] != 'S' && pattern[1] != 'T'
    ensures StartsNowhere(REGISTER, pattern)
  {
    assert pattern[1..][0] == pattern[1];
    WordAndOption("\r\nRegister", "ScheduledTask ", pattern);
    OneDash("TaskName ", pattern);
    StartsNowhereInBoth("\r\nRegister" + ("-" + "ScheduledTask "), "-" + "TaskName ", pattern);
  }

  lemma TimeIsPlain(time: string)
    requires IsTime(time)
    ensures '-' !in time && '\'' !in time && PowerShellLiteral(time) == "'" + time + "'"
            && '-' !in PowerShellLiteral(time)
  {
    assert time == [time[0], time[1], time[2], time[3], time[4]];
    PlainIsNotDoubled(time);
  }

  lemma AtIsSkipped(pattern: string, time: string)
    requires |pattern| > 1 && pattern[0] == '-' && pattern[1] != 'A' && IsTime(time)
    ensures StartsNowhere(("-" + "At ") + PowerShellLiteral(time), pattern)
  {
    TimeIsPlain(time);
    OneDash("At ", pattern);
    StartsNowhereWithout(PowerShellLiteral(time), pattern);
    StartsNowhereInBoth("-" + "At ", PowerShellLiteral(time), pattern);
  }

  lemma {:induction false} WeekdaysHaveNoDash(weekdays: seq<Weekday>)
    ensures '-' !in Join(WeekdayNames(weekdays), ",")
  {
    if weekdays != [] {
      WeekdaysHaveNoDash(weekdays[1..]);
      assert WeekdayNames(weekdays)[1..] == WeekdayNames(weekdays[1..]);
      assert '-' !in WeekdayName(weekdays[0]);
    }
  }

  /** A daily trigger holds no other option than its own. */
  lemma DailyTriggerIsSkipped(pattern: string, time: string)
    requires |pattern| > 1 && pattern[0] == '-' && pattern[1] != 'A' && Differs("Daily ", pattern[1..]) && IsTime(time)
    ensures StartsNowhere(Trigger(Daily(time)), pattern)
  {
    OneDash("Daily ", pattern);
    AtIsSkipped(pattern, time);
    Joined(pattern, "-" + "Daily ", "-" + "At ", PowerShellLiteral(time));
  }

  lemma Joined(pattern: string, a: string, b: string, c: string)
    requires StartsNowhere(a, pattern) && StartsNowhere(b + c, pattern)
    ensures StartsNowhere(a + b + c, pattern)
  {
    StartsNowhereInBoth(a, b + c, pattern);
    assert a + b + c == a + (b + c);
  }

  lemma WeeklyTriggerIsSkipped(pattern: string, weekdays: seq<Weekday>, time: string)
    requires |pattern| > 1 && pattern[0] == '-' && pattern[1] != 'A' && IsTime(time)
    requires Differs("Weekly ", pattern[1..]) && Differs("DaysOfWeek ", pattern[1..])
    ensures StartsNowhere(Trigger(Weekly(weekdays, time)), pattern)
  {
    var names, at := Join(WeekdayNames(weekdays), ","), ("-" + "At ") + PowerShellLiteral(time);
    WeeklyOnIsSkipped(pattern);
    WeekdaysAreSkipped(pattern, weekdays);
    AtIsSkipped(pattern, time);
    StartsNowhereInBoth(WEEKLY_ON, names + " ", pattern);
    StartsNowhereInBoth(WEEKLY_ON + (names + " "), at, pattern);
    WeeklyParts(WEEKLY_ON, names, "-" + "At ", PowerShellLiteral(time));
  }

  lemma WeeklyOnIsSkipped(pattern: string)
    requires |pattern| > 1 && pattern[0] == '-'
    requires Differs("Weekly ", pattern[1..]) && Differs("DaysOfWeek ", pattern[1..])
    ensures StartsNowhere(WEEKLY_ON, pattern)
  {
    OneDash("Weekly ", pattern);
    OneDash("DaysOfWeek ", pattern);
    StartsNowhereInBoth("-" + "Weekly ", "-" + "DaysOfWeek ", pattern);
  }

  lemma WeekdaysAreSkipped(pattern: string, weekdays: seq<Weekday>)
    requires |pattern| > 1 && pattern[0] == '-'
    ensures StartsNowhere(Join(WeekdayNames(weekdays), ",") + " ", pattern)
  {
    WeekdaysHaveNoDash(weekdays);
    StartsNowhereWithout(Join(WeekdayNames(weekdays), ",") + " ", pattern);
  }

  lemma WeeklyParts(a: string, b: string, c: string, d: string)
    ensures a + b + (" " + c) + d == a + (b + " ") + (c + d)
  {
  }

  /** The text between the trigger and the description. */
  function BeforeDescription(job: Job): string {
    REGISTER + PowerShellLiteral(TaskName(job)) + " "
  }

  lemma TaskNameIsPlain(job: Job)
    requires forall c :: c in job.name ==> IsNameChar(c)
    ensures ' ' !in TaskName(job) && '\'' !in TaskName(job)
  {
    assert ' ' !in "Canonfig\\" && '\'' !in "Canonfig\\";
  }

  lemma BeforeDescriptionIsSkipped(job: Job)
    requires forall c :: c in job.name ==> IsNameChar(c)
    ensures StartsNowhere(BeforeDescription(job), DESCRIPTION + "'")
  {
    var pattern, name := DESCRIPTION + "'", TaskName(job);
    TaskNameIsPlain(job);
    PlainIsNotDoubled(name);
    RegisterIsSkipped(pattern);
    NameIsSkipped(name, "-Description");
    StartsNowhereWithout("'", pattern);
    StartsNowhereWithout(" ", pattern);
    StartsNowhereInBoth("'", name + "'", pattern);
    assert PowerShellLiteral(name) == "'" + (name + "'");
    StartsNowhereInBoth(REGISTER, PowerShellLiteral(name), pattern);
    StartsNowhereInBoth(REGISTER + PowerShellLiteral(name), " ", pattern);
  }

  lemma TriggerIsSkipped(job: Job)
    requires IsTime(job.calendar.localTime)
    ensures StartsNowhere(Trigger(job.calendar), DESCRIPTION + "'")
  {
    var pattern := DESCRIPTION + "'";
    assert pattern[1..][0] == 'D' && pattern[1..][1..][0] == 'e';
    if job.calendar.Daily? {
      assert "Daily "[1..][0] == 'a';
      DailyTriggerIsSkipped(pattern, job.calendar.localTime);
    } else {
      assert "DaysOfWeek "[1..][0] == 'a';
      WeeklyTriggerIsSkipped(pattern, job.calendar.weekdays, job.calendar.localTime);
    }
  }

  lemma DescriptionIsMatched(description: string, rest: string)
    requires rest != "" && rest[0] != '\''
    ensures MatchDescription(DESCRIPTION + PowerShellLiteral(description) + rest) == Some((Doubled(description), rest))
  {
    LiteralInPlace(DESCRIPTION, description, rest);
    GroupReadsLiteral(description, rest, Done);
    LiterallyHere(DESCRIPTION + "'", Doubled(description) + "'" + rest, text => Group(text, Done));
  }

  lemma ScheduleBeforeDescriptionIsSkipped(job: Job)
    requires IsRenderable(job)
    ensures StartsNowhere(TRIGGER_PREFIX + Trigger(job.calendar) + BeforeDescription(job), DESCRIPTION + "'")
  {
    var pattern := DESCRIPTION + "'";
    TriggerPrefixIsSkipped(pattern);
    TriggerIsSkipped(job);
    BeforeDescriptionIsSkipped(job);
    StartsNowhereInBoth(TRIGGER_PREFIX, Trigger(job.calendar), pattern);
    StartsNowhereInBoth(TRIGGER_PREFIX + Trigger(job.calendar), BeforeDescription(job), pattern);
  }

  lemma TailStartsWithBlank()
    ensures REGISTER_TAIL != "" && REGISTER_TAIL[0] == ' '
  {
  }

  lemma DescriptionIsFound(job: Job, fingerprint: string)
    requires IsRenderable(job)
    ensures Search(Render(job, fingerprint).schedule, MatchDescription)
            == Some((Doubled(OwnedDescription(job, fingerprint)), REGISTER_TAIL))
  {
    var description := OwnedDescription(job, fingerprint);
    var prefix, text := TRIGGER_PREFIX + Trigger(job.calendar) + BeforeDescription(job),
                        DESCRIPTION + PowerShellLiteral(description) + REGISTER_TAIL;
    ScheduleText(TRIGGER_PREFIX, Trigger(job.calendar), REGISTER, PowerShellLiteral(TaskName(job)), DESCRIPTION,
                 PowerShellLiteral(description), REGISTER_TAIL);
    ScheduleBeforeDescriptionIsSkipped(job);
    SearchSkips(prefix, text, MatchDescription, DESCRIPTION + "'");
    TailStartsWithBlank();
    DescriptionIsMatched(description, REGISTER_TAIL);
  }

  lemma ScheduleText(a: string, b: string, c: string, d: string, e: string, f: string, g: string)
    ensures a + b + (c + d + " " + e + f + g) == a + b + (c + d + " ") + (e + f + g)
  {
  }

  // ---------------------------------------------------------------- the calendar

  /** "t", a blank, a quote and a digit: how every time in a trigger is introduced. */
  predicate IntroducesTime(text: string) {
    |text| > 3 && text[0] == 't' && text[1] == ' ' && text[2] == '\'' && IsDigit(text[3])
  }

  predicate HasNoTime(text: string) {
    text == "" || (!IntroducesTime(text) && HasNoTime(text[1..]))
  }

  lemma {:induction false} NoTimeFurther(text: string, k: nat)
    requires HasNoTime(text) && k <= |text|
    ensures HasNoTime(text[k..])
  {
    if k > 0 {
      NoTimeFurther(text[1..], k - 1);
      assert text[1..][k - 1..] == text[k..];
    } else {
      assert text[0..] == text;
    }
  }

  lemma TimeAtIsIntroduced(before: string, text: string)
    requires Literally(text, before + "t " + "'", MatchTime).Some?
    ensures !HasNoTime(text)
  {
    var k := |before|;
    var time := text[k + 3..];
    assert text[|before + "t " + "'"|..] == time;
    assert text[k] == (before + "t " + "'")[k] && text[k + 1] == (before + "t " + "'")[k + 1]
           && text[k + 2] == (before + "t " + "'")[k + 2];
    assert time[0] == time[..5][0];
    assert IntroducesTime(text[k..]);
    if HasNoTime(text) { NoTimeFurther(text, k); }
  }

  /** Nothing in a text without quotes is a time, unless its end is completed by what follows. */
  lemma {:induction false} NoTimeBefore(prefix: string, rest: string)
    requires '\'' !in prefix && HasNoTime(rest)
    requires rest != "" && rest[0] == '\''
      ==> |prefix| < 2 || prefix[|prefix| - 2] != 't' || (|rest| > 1 ==> !IsDigit(rest[1]))
    requires |rest| > 1 && rest[0] == ' ' ==> rest[1] != '\''
    ensures HasNoTime(prefix + rest)
  {
    if prefix == "" {
      assert prefix + rest == rest;
    } else {
      assert (prefix + rest)[1..] == prefix[1..] + rest;
      assert '\'' !in prefix[1..];
      NoTimeBefore(prefix[1..], rest);
      assert |prefix| > 2 ==> prefix[2] in prefix;
    }
  }

  /** What stands behind the first characters of a literal: never a quote and a digit. */
  lemma DoubledQuoteOrEnd(value: string, rest: string)
    requires rest == "" || !IsDigit(rest[0])
    ensures var text := Doubled(value) + "'" + rest; |text| > 1 && text[0] == '\'' ==> !IsDigit(text[1])
  {
    LiteralText(value, rest);
  }

  lemma {:induction false} NoTimeInLiteral(value: string, rest: string)
    requires HasNoTime(rest) && (rest == "" || !IsDigit(rest[0]))
    ensures HasNoTime(Doubled(value) + "'" + rest)
    decreases |value|
  {
    LiteralText(value, rest);
    var text := Doubled(value) + "'" + rest;
    if value != "" {
      NoTimeInLiteral(value[1..], rest);
      var more := Doubled(value[1..]) + "'" + rest;
      LiteralText(value[1..], rest);
      if value[0] == '\'' {
        assert text[1..] == "'" + more && (text[1..])[1..] == more;
      } else if |value| > 1 && value[1] != '\'' {
        DoubledQuoteOrEnd(value[2..], rest);
        assert value[1..][1..] == value[2..] && text[2..] == text[1..][1..];
        assert text[2] == text[2..][0] && (|text| > 3 ==> text[3] == text[2..][1]);
      }
    }
  }

  lemma TailHasNoTime()
    ensures HasNoTime(REGISTER_TAIL)
  {
    assert '\'' !in "-Action $Action " && '\'' !in "-Trigger $Trigger " && '\'' !in "-Principal $Principal "
           && '\'' !in "-Settings $Settings";
    assert REGISTER_TAIL + "" == REGISTER_TAIL;
    NoTimeBefore(REGISTER_TAIL, "");
  }

  /** A literal behind an option that does not end in "t" holds no time. */
  lemma OptionHasNoTime(option: string, value: string, rest: string)
    requires '\'' !in option && |option| > 1 && option[|option| - 2] != 't'
    requires HasNoTime(rest) && rest != "" && !IsDigit(rest[0])
    ensures HasNoTime(option + ("'" + (Doubled(value) + "'" + rest)))
  {
    NoTimeInLiteral(value, rest);
    var text := "'" + (Doubled(value) + "'" + rest);
    assert text[1..] == Doubled(value) + "'" + rest;
    NoTimeBefore(option, text);
  }

  lemma OptionEnds()
    ensures '\'' !in REGISTER && |REGISTER| > 1 && REGISTER[|REGISTER| - 2] != 't'
    ensures '\'' !in " " + DESCRIPTION && (" " + DESCRIPTION)[|" " + DESCRIPTION| - 2] != 't'
  {
  }

  /** The text that registers the task holds no time, whatever the description says. */
  lemma RegistrationHasNoTime(job: Job, fingerprint: string)
    requires IsRenderable(job)
    ensures HasNoTime(Registration(job, fingerprint))
  {
    var name, description := TaskName(job), OwnedDescription(job, fingerprint);
    TailStartsWithBlank();
    TailHasNoTime();
    OptionEnds();
    OptionHasNoTime(" " + DESCRIPTION, description, REGISTER_TAIL);
    OptionHasNoTime(REGISTER, name, " " + DESCRIPTION + ("'" + (Doubled(description) + "'" + REGISTER_TAIL)));
    RegistrationText(REGISTER, Doubled(name), DESCRIPTION, Doubled(description), REGISTER_TAIL);
  }

  lemma RegistrationText(a: string, b: string, c: string, d: string, e: string)
    ensures a + ("'" + b + "'") + " " + c + ("'" + d + "'") + e == a
            + ("'" + (b + "'" + (" " + c + ("'" + (d + "'" + e)))))
  {
  }

  // ---------------------------------------------------------------- finding the calendar

  lemma {:induction false} SearchFindsNothing<T>(text: string, at: string -> Option<T>)
    requires HasNoTime(text) && forall rest :: at(rest).Some? ==> !HasNoTime(rest)
    ensures Search(text, at).None?
  {
    if text != "" { SearchFindsNothing(text[1..], at); }
  }

  lemma MatchDailyNeedsTime(text: string)
    ensures MatchDaily(text).Some? ==> !HasNoTime(text)
  {
    assert DAILY_AT + "'" == ("-" + "Daily ") + ("-" + "A") + "t " + "'";
    if MatchDaily(text).Some? { TimeAtIsIntroduced(("-" + "Daily ") + ("-" + "A"), text); }
  }

  lemma {:induction false} MatchWeekdaysNeedsTime(text: string)
    ensures MatchWeekdays(text).Some? ==> !HasNoTime(text)
  {
    if MatchWeekdays(text).Some? && HasNoTime(text) {
      var rest := text[3..];
      NoTimeFurther(text, 3);
      if "," <= rest && MatchWeekdays(rest[1..]).Some? {
        NoTimeFurther(rest, 1);
        MatchWeekdaysNeedsTime(rest[1..]);
      } else {
        assert AT + "'" == (" " + ("-" + "A")) + "t " + "'";
        TimeAtIsIntroduced(" " + ("-" + "A"), rest);
      }
      assert false;
    }
  }

  lemma MatchWeeklyNeedsTime(text: string)
    ensures MatchWeekly(text).Some? ==> !HasNoTime(text)
  {
    if MatchWeekly(text).Some? && HasNoTime(text) {
      NoTimeFurther(text, |WEEKLY_ON|);
      MatchWeekdaysNeedsTime(text[|WEEKLY_ON|..]);
      assert false;
    }
  }

  lemma TimeInPlace(before: string, time: string, rest: string)
    requires IsTime(time)
    ensures before + PowerShellLiteral(time) + rest == (before + "'") + (time + "'" + rest)
  {
    TimeIsPlain(time);
    PlainIsNotDoubled(time);
    LiteralInPlace(before, time, rest);
  }

  lemma TimeIsMatched(time: string, rest: string)
    requires IsTime(time)
    ensures MatchTime(time + "'" + rest) == Some(time)
  {
    TimeIsPlain(time);
    assert (time + "'" + rest)[..5] == time;
  }

  lemma TwoLetters(name: string, text: string)
    requires |name| == 3
    ensures name <= text <==> |text| >= 3 && text[..3] == name
    ensures name <= text ==> text[0] == name[0] && text[1] == name[1]
  {
  }

  lemma WeekdayIsMatched(weekday: Weekday, rest: string)
    ensures |WeekdayName(weekday)| == 3 && (WeekdayName(weekday) + rest)[3..] == rest
    ensures MatchWeekday(WeekdayName(weekday) + rest) == Some(weekday)
  {
    var text := WeekdayName(weekday) + rest;
    TwoLetters("Mon", text);
    TwoLetters("Tue", text);
    TwoLetters("Wed", text);
    TwoLetters("Thu", text);
    TwoLetters("Fri", text);
    TwoLetters("Sat", text);
    TwoLetters("Sun", text);
    assert text[..3] == WeekdayName(weekday);
  }

  /** The time at the end of a weekly trigger. */
  lemma AtIsMatched(time: string, rest: string)
    requires IsTime(time)
    ensures var text := AT + PowerShellLiteral(time) + rest;
            text[0] == ' ' && Literally(text, AT + "'", MatchTime) == Some(time)
  {
    TimeIsMatched(time, rest);
    TimeInPlace(AT, time, rest);
    LiterallyHere(AT + "'", time + "'" + rest, MatchTime);
  }

  lemma {:induction false} WeekdaysAreMatched(weekdays: seq<Weekday>, time: string, rest: string)
    requires weekdays != [] && IsTime(time)
    ensures MatchWeekdays(Join(WeekdayNames(weekdays), ",") + (AT + PowerShellLiteral(time) + rest))
            == Some((weekdays, time))
  {
    var tail, others := AT + PowerShellLiteral(time) + rest, weekdays[1..];
    assert WeekdayNames(weekdays)[1..] == WeekdayNames(others) && weekdays == [weekdays[0]] + others;
    JoinThen(WeekdayNames(weekdays), ",", tail);
    if others == [] {
      assert WeekdayNames(others) == [] && |WeekdayNames(weekdays)| == 1 && weekdays == [weekdays[0]];
      LastWeekdayIsMatched(weekdays[0], time, rest);
    } else {
      WeekdaysAreMatched(others, time, rest);
      FirstWeekdayIsMatched(weekdays[0], Join(WeekdayNames(others), ",") + tail);
    }
  }

  lemma LastWeekdayIsMatched(weekday: Weekday, time: string, rest: string)
    requires IsTime(time)
    ensures MatchWeekdays(WeekdayName(weekday) + (AT + PowerShellLiteral(time) + rest)) == Some(([weekday], time))
  {
    AtIsMatched(time, rest);
    WeekdayIsMatched(weekday, AT + PowerShellLiteral(time) + rest);
  }

  lemma FirstWeekdayIsMatched(weekday: Weekday, more: string)
    requires MatchWeekdays(more).Some?
    ensures MatchWeekdays(WeekdayName(weekday) + ("," + more))
            == Some(([weekday] + MatchWeekdays(more).value.0, MatchWeekdays(more).value.1))
  {
    WeekdayIsMatched(weekday, "," + more);
    assert ("," + more)[1..] == more;
  }

  lemma DailyIsFound(time: string, registration: string)
    requires IsTime(time) && HasNoTime(registration)
    ensures var schedule := TRIGGER_PREFIX + Trigger(Daily(time)) + registration;
            Search(schedule, MatchDaily) == Some(time) && Search(schedule, MatchWeekly).None?
  {
    var text := Trigger(Daily(time)) + registration;
    assert TRIGGER_PREFIX + Trigger(Daily(time)) + registration == TRIGGER_PREFIX + text;
    TriggerPrefixIsSkipped(DAILY_AT + "'");
    SearchSkips(TRIGGER_PREFIX, text, MatchDaily, DAILY_AT + "'");
    DailyIsMatched(time, registration);
    NoWeeklyInDaily(time, registration);
  }

  lemma DailyIsMatched(time: string, rest: string)
    requires IsTime(time)
    ensures MatchDaily(Trigger(Daily(time)) + rest) == Some(time)
  {
    TimeIsMatched(time, rest);
    TimeInPlace(DAILY_AT, time, rest);
    LiterallyHere(DAILY_AT + "'", time + "'" + rest, MatchTime);
  }

  lemma NoWeeklyInDaily(time: string, registration: string)
    requires IsTime(time) && HasNoTime(registration)
    ensures Search(TRIGGER_PREFIX + (Trigger(Daily(time)) + registration), MatchWeekly).None?
  {
    assert WEEKLY_ON[1..][0] == 'W';
    TriggerPrefixIsSkipped(WEEKLY_ON);
    DailyTriggerIsSkipped(WEEKLY_ON, time);
    SearchSkips(TRIGGER_PREFIX, Trigger(Daily(time)) + registration, MatchWeekly, WEEKLY_ON);
    SearchSkips(Trigger(Daily(time)), registration, MatchWeekly, WEEKLY_ON);
    forall rest | MatchWeekly(rest).Some? ensures !HasNoTime(rest) { MatchWeeklyNeedsTime(rest); }
    SearchFindsNothing(registration, MatchWeekly);
  }

  lemma WeeklyIsFound(weekdays: seq<Weekday>, time: string, registration: string)
    requires weekdays != [] && IsTime(time) && HasNoTime(registration)
    ensures var schedule := TRIGGER_PREFIX + Trigger(Weekly(weekdays, time)) + registration;
            Search(schedule, MatchDaily).None? && Search(schedule, MatchWeekly) == Some((weekdays, time))
  {
    var text := Trigger(Weekly(weekdays, time)) + registration;
    assert TRIGGER_PREFIX + Trigger(Weekly(weekdays, time)) + registration == TRIGGER_PREFIX + text;
    TriggerPrefixIsSkipped(WEEKLY_ON);
    SearchSkips(TRIGGER_PREFIX, text, MatchWeekly, WEEKLY_ON);
    WeeklyIsMatched(weekdays, time, registration);
    NoDailyInWeekly(weekdays, time, registration);
  }

  lemma WeeklyIsMatched(weekdays: seq<Weekday>, time: string, rest: string)
    requires weekdays != [] && IsTime(time)
    ensures MatchWeekly(Trigger(Weekly(weekdays, time)) + rest) == Some((weekdays, time))
  {
    var names := Join(WeekdayNames(weekdays), ",");
    WeekdaysAreMatched(weekdays, time, rest);
    WeeklyText(WEEKLY_ON, names, AT, PowerShellLiteral(time), rest);
    LiterallyHere(WEEKLY_ON, names + (AT + PowerShellLiteral(time) + rest), MatchWeekdays);
  }

  lemma WeeklyText(a: string, b: string, c: string, d: string, e: string)
    ensures a + b + c + d + e == a + (b + (c + d + e))
  {
  }

  lemma NoDailyInWeekly(weekdays: seq<Weekday>, time: string, registration: string)
    requires IsTime(time) && HasNoTime(registration)
    ensures Search(TRIGGER_PREFIX + (Trigger(Weekly(weekdays, time)) + registration), MatchDaily).None?
  {
    var pattern := DAILY_AT + "'";
    assert pattern[1..][0] == 'D' && pattern[1..][1..][0] == 'a' && pattern[1..][1..][1..][0] == 'i';
    assert "DaysOfWeek "[1..][0] == 'a' && "DaysOfWeek "[1..][1..][0] == 'y';
    TriggerPrefixIsSkipped(pattern);
    WeeklyTriggerIsSkipped(pattern, weekdays, time);
    SearchSkips(TRIGGER_PREFIX, Trigger(Weekly(weekdays, time)) + registration, MatchDaily, pattern);
    SearchSkips(Trigger(Weekly(weekdays, time)), registration, MatchDaily, pattern);
    forall rest | MatchDaily(rest).Some? ensures !HasNoTime(rest) { MatchDailyNeedsTime(rest); }
    SearchFindsNothing(registration, MatchDaily);
  }

  /** Behind the option that introduces weekdays there is none to match. */
  lemma NoWeekdayAtBlank(rest: string)
    requires rest != "" && rest[0] == ' '
    ensures MatchWeekdays(rest).None?
  {
    assert "Mon"[0] != ' ' && "Tue"[0] != ' ' && "Wed"[0] != ' ' && "Thu"[0] != ' ' && "Fri"[0] != ' '
           && "Sat"[0] != ' ' && "Sun"[0] != ' ';
  }

  lemma NothingInWeeklyTail(time: string)
    requires IsTime(time)
    ensures StartsNowhere("Weekly " + ("-" + "DaysOfWeek ") + (AT + PowerShellLiteral(time)), WEEKLY_ON)
  {
    assert WEEKLY_ON[1..][0] == 'W';
    StartsNowhereWithout("Weekly ", WEEKLY_ON);
    OneDash("DaysOfWeek ", WEEKLY_ON);
    StartsNowhereInBoth("Weekly ", "-" + "DaysOfWeek ", WEEKLY_ON);
    StartsNowhereWithout(" ", WEEKLY_ON);
    AtIsSkipped(WEEKLY_ON, time);
    StartsNowhereInBoth(" ", ("-" + "At ") + PowerShellLiteral(time), WEEKLY_ON);
    assert AT + PowerShellLiteral(time) == " " + (("-" + "At ") + PowerShellLiteral(time));
    StartsNowhereInBoth("Weekly " + ("-" + "DaysOfWeek "), AT + PowerShellLiteral(time), WEEKLY_ON);
  }

  lemma SearchFurther<T>(text: string, at: string -> Option<T>)
    requires text != "" && at(text).None?
    ensures Search(text, at) == Search(text[1..], at)
  {
  }

  /** A weekly trigger without a day is not found. */
  lemma NeverIsNotFound(time: string, registration: string)
    requires IsTime(time) && HasNoTime(registration)
    ensures var schedule := TRIGGER_PREFIX + Trigger(Weekly([], time)) + registration;
            Search(schedule, MatchDaily).None? && Search(schedule, MatchWeekly).None?
  {
    var at := AT + PowerShellLiteral(time);
    var text := Trigger(Weekly([], time)) + registration;
    var tail := "Weekly " + ("-" + "DaysOfWeek ") + at;
    assert TRIGGER_PREFIX + Trigger(Weekly([], time)) + registration == TRIGGER_PREFIX + text;
    NoDailyInWeekly([], time, registration);
    TriggerPrefixIsSkipped(WEEKLY_ON);
    SearchSkips(TRIGGER_PREFIX, text, MatchWeekly, WEEKLY_ON);
    NeverText("-", "Weekly ", "-" + "DaysOfWeek ", AT, PowerShellLiteral(time), registration);
    NoWeekdayAtBlank(at + registration);
    LiterallyHere(WEEKLY_ON, at + registration, MatchWeekdays);
    SearchFurther(text, MatchWeekly);
    NothingInWeeklyTail(time);
    SearchSkips(tail, registration, MatchWeekly, WEEKLY_ON);
    forall rest | MatchWeekly(rest).Some? ensures !HasNoTime(rest) { MatchWeeklyNeedsTime(rest); }
    SearchFindsNothing(registration, MatchWeekly);
  }

  lemma NeverText(dash: string, a: string, b: string, c: string, d: string, rest: string)
    requires |dash| == 1
    ensures (dash + a + b) + "" + c + d + rest == (dash + a + b) + ((c + d) + rest)
    ensures ((dash + a + b) + "" + c + d + rest)[1..] == (a + b + (c + d)) + rest
  {
  }

  /** What a job asks for, as the scheduler will be told. */
  function DefinitionOf(job: Job, fingerprint: string): Definition {
    Definition(TaskName(job), OwnedDescription(job, fingerprint), job.executable, JoinedCommandLine(job.arguments),
               job.calendar.localTime,
               if job.calendar.Weekly? then Some(job.calendar.weekdays) else None)
  }

  lemma CalendarIsFound(job: Job, fingerprint: string)
    requires IsRenderable(job)
    ensures var schedule := Render(job, fingerprint).schedule;
            if job.calendar.Daily?
            then Search(schedule, MatchDaily) == Some(job.calendar.localTime) && Search(schedule, MatchWeekly).None?
            else if IsNever(job.calendar) then Search(schedule, MatchDaily).None? && Search(schedule, MatchWeekly).None?
            else Search(schedule, MatchDaily).None?
                 && Search(schedule, MatchWeekly) == Some((job.calendar.weekdays, job.calendar.localTime))
  {
    RegistrationHasNoTime(job, fingerprint);
    if job.calendar.Daily? {
      DailyIsFound(job.calendar.localTime, Registration(job, fingerprint));
    } else if IsNever(job.calendar) {
      NeverIsNotFound(job.calendar.localTime, Registration(job, fingerprint));
    } else {
      WeeklyIsFound(job.calendar.weekdays, job.calendar.localTime, Registration(job, fingerprint));
    }
  }

  /** Parsing undoes rendering, but for a weekly job without a day, which is refused: no description, path or argument
      can be mistaken for another part of the text. */
  lemma ParseUndoesRender(job: Job, fingerprint: string)
    requires IsRenderable(job)
    ensures ParseDefinition(Render(job, fingerprint)) == if IsNever(job.calendar) then None
                                                         else Some(DefinitionOf(job, fingerprint))
  {
    assert PRINCIPAL_AND_SETTINGS[0] == '\r';
    ActionIsFound(job.executable, JoinedCommandLine(job.arguments), PRINCIPAL_AND_SETTINGS);
    DescriptionIsFound(job, fingerprint);
    CalendarIsFound(job, fingerprint);
    LiteralSurvives(job.executable);
    LiteralSurvives(JoinedCommandLine(job.arguments));
    LiteralSurvives(OwnedDescription(job, fingerprint));
  }
}
