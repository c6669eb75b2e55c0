/** Windows argument quoting (`src/machine/windows.layer.ts`) against the documented splitting rules of
    CommandLineToArgvW: whatever the arguments are, splitting the joined command line gives them back. */
module CommandLine {
  import opened Texts

  predicate IsPlain(value: string) {
    value != "" && forall c :: c in value ==> !IsSpace(c) && c != '"'
  }

  function Backslashes(count: nat): string {
    if count == 0 then "" else "\\" + Backslashes(count - 1)
  }

  /** What the loop still has to write for `value`, with some backslashes held back. */
  function QuotedRest(value: string, held: nat): string {
    if value == "" then Backslashes(held * 2) + "\""
    else if value[0] == '\\' then QuotedRest(value[1..], held + 1)
    else if value[0] == '"' then Backslashes(held * 2 + 1) + "\"" + QuotedRest(value[1..], 0)
    else Backslashes(held) + [value[0]] + QuotedRest(value[1..], 0)
  }

  function CommandLineArgument(value: string): string {
    if IsPlain(value) then value else "\"" + QuotedRest(value, 0)
  }

  /** Quotes are put around exactly the arguments that need them: empty ones and those with a blank or a quote. */
  lemma QuotedIfNeeded(value: string)
    ensures value != "" && (forall k :: 0 <= k < |value| ==> !IsSpace(value[k]) && value[k] != '"')
      ==> CommandLineArgument(value) == value
    ensures value == "" || (exists k :: 0 <= k < |value| && (IsSpace(value[k]) || value[k] == '"'))
      ==> CommandLineArgument(value) != "" && CommandLineArgument(value)[0] == '"'
  {
    if k :| 0 <= k < |value| && (IsSpace(value[k]) || value[k] == '"') { assert value[k] in value; }
  }

  method WindowsCommandLineArgument(value: string) returns (output: string)
    ensures output == CommandLineArgument(value)
  {
    if IsPlain(value) { return value; }
    output := "\"";
    var backslashes := 0;
    for k := 0 to |value|
      invariant output + QuotedRest(value[k..], backslashes) == "\"" + QuotedRest(value, 0)
    {
      ghost var before := output + QuotedRest(value[k..], backslashes);
      assert value[k..][0] == value[k] && value[k..][1..] == value[k + 1..];
      if value[k] == '\\' {
        backslashes := backslashes + 1;
      } else if value[k] == '"' {
        output := output + Backslashes(backslashes * 2 + 1) + "\"";
        backslashes := 0;
      } else {
        output := output + Backslashes(backslashes) + [value[k]];
        backslashes := 0;
      }
      assert output + QuotedRest(value[k + 1..], backslashes) == before;
    }
    output := output + Backslashes(backslashes * 2) + "\"";
  }

  // ---------------------------------------------------------------- splitting, as documented for CommandLineToArgvW

  datatype Parsed = Parsed(argument: string, rest: string)

  function After(prefix: string, parsed: Parsed): Parsed {
    Parsed(prefix + parsed.argument, parsed.rest)
  }

  /** One argument: 2n backslashes and a quote give n backslashes and toggle quoting, 2n+1 give n and a
      literal quote, backslashes elsewhere stand for themselves, and a blank outside quotes ends it. */
  function ParseArgument(line: string, quoted: bool, backslashes: nat): Parsed
    decreases |line|
    ensures var rest := ParseArgument(line, quoted, backslashes).rest;
            |rest| <= |line| && (line != "" && (quoted || !IsBlank(line[0])) ==> |rest| < |line|)
  {
    if line == "" then Parsed(Backslashes(backslashes), "")
    else if line[0] == '\\' then ParseArgument(line[1..], quoted, backslashes + 1)
    else if line[0] == '"' then
      if backslashes % 2 == 1 then After(Backslashes(backslashes / 2) + "\"", ParseArgument(line[1..], quoted, 0))
      else After(Backslashes(backslashes / 2), ParseArgument(line[1..], !quoted, 0))
    else if !quoted && IsBlank(line[0]) then Parsed(Backslashes(backslashes), line)
    else After(Backslashes(backslashes) + [line[0]], ParseArgument(line[1..], quoted, 0))
  }

  predicate IsBlank(c: char) {
    c == ' ' || c == '\t'
  }

  function SplitArguments(line: string): seq<string>
    decreases |line|
  {
    if line == "" then []
    else if IsBlank(line[0]) then SplitArguments(line[1..])
    else
      var parsed := ParseArgument(line, false, 0);
      [parsed.argument] + SplitArguments(parsed.rest)
  }

  // ---------------------------------------------------------------- the round trip

  lemma {:induction false} BackslashesAdd(m: nat, n: nat)
    ensures Backslashes(m) + Backslashes(n) == Backslashes(m + n)
  {
    if m > 0 { BackslashesAdd(m - 1, n); }
  }

  lemma {:induction false} ReadBackslashes(count: nat, rest: string, quoted: bool, before: nat)
    ensures ParseArgument(Backslashes(count) + rest, quoted, before) == ParseArgument(rest, quoted, before + count)
    decreases count
  {
    if count > 0 {
      var line := Backslashes(count) + rest;
      assert line[0] == '\\' && line[1..] == Backslashes(count - 1) + rest;
      ReadBackslashes(count - 1, rest, quoted, before + 1);
    } else {
      assert Backslashes(0) + rest == rest;
    }
  }

  /** What follows an argument in a command line: nothing, or a blank. */
  predicate Ends(rest: string) {
    rest == "" || IsBlank(rest[0])
  }

  lemma ReadOrdinary(c: char, more: string, quoted: bool, before: nat)
    requires c != '\\' && c != '"' && (quoted || !IsBlank(c))
    ensures ParseArgument([c] + more, quoted, before)
            == After(Backslashes(before) + [c], ParseArgument(more, quoted, 0))
  {
    assert ([c] + more)[1..] == more;
  }

  lemma ReadBackslash(more: string, quoted: bool, before: nat)
    ensures ParseArgument("\\" + more, quoted, before) == ParseArgument(more, quoted, before + 1)
  {
    assert ("\\" + more)[1..] == more;
  }

  lemma ReadQuote(more: string, quoted: bool, count: nat)
    ensures ParseArgument("\"" + more, quoted, count * 2) == After(Backslashes(count), ParseArgument(more, !quoted, 0))
    ensures ParseArgument("\"" + more, quoted, count * 2 + 1)
            == After(Backslashes(count) + "\"", ParseArgument(more, quoted, 0))
  {
    assert ("\"" + more)[1..] == more;
  }

  /** `count` backslashes, one more, and the rest are `count + 1` backslashes and the rest. */
  lemma OneMoreBackslash(count: nat, tail: string)
    ensures Backslashes(count + 1) + tail == Backslashes(count) + ("\\" + tail)
  {
    BackslashesAdd(count, 1);
    assert Backslashes(1) == "\\" + Backslashes(0) == "\\";
  }

  predicate IsBare(value: string) {
    value == "" || (!IsBlank(value[0]) && value[0] != '"' && IsBare(value[1..]))
  }

  lemma {:induction false} PlainIsBare(value: string)
    requires forall c :: c in value ==> !IsSpace(c) && c != '"'
    ensures IsBare(value)
  {
    if value != "" {
      assert value[0] in value;
      PlainIsBare(value[1..]);
    }
  }

  lemma {:induction false} PlainIsRead(value: string, rest: string, before: nat)
    requires IsBare(value) && Ends(rest)
    ensures ParseArgument(value + rest, false, before) == Parsed(Backslashes(before) + value, rest)
    decreases |value|
  {
    if value == "" {
      assert value + rest == rest && Backslashes(before) + value == Backslashes(before);
    } else {
      var c, tail := value[0], value[1..];
      assert value + rest == [c] + (tail + rest) && value == [c] + tail;
      if c == '\\' {
        ReadBackslash(tail + rest, false, before);
        PlainIsRead(tail, rest, before + 1);
        OneMoreBackslash(before, tail);
      } else {
        ReadOrdinary(c, tail + rest, false, before);
        PlainIsRead(tail, rest, 0);
        assert Backslashes(before) + [c] + (Backslashes(0) + tail) == Backslashes(before) + value;
      }
    }
  }

  lemma {:induction false} QuotedIsRead(value: string, rest: string, held: nat)
    requires Ends(rest)
    ensures ParseArgument(QuotedRest(value, held) + rest, true, 0) == Parsed(Backslashes(held) + value, rest)
    decreases |value|
  {
    if value == "" {
      ClosingIsRead(rest, held);
    } else {
      var c, tail := value[0], value[1..];
      assert value == [c] + tail;
      if c == '\\' {
        QuotedIsRead(tail, rest, held + 1);
        OneMoreBackslash(held, tail);
      } else {
        QuotedIsRead(tail, rest, 0);
        assert Backslashes(0) + tail == tail && Backslashes(held) + [c] + tail == Backslashes(held) + value;
        QuotedText(value, rest, held);
        EscapedIsRead(c, tail, rest, held, QuotedRest(tail, 0) + rest);
      }
    }
  }

  lemma ClosingText(rest: string, held: nat)
    ensures QuotedRest("", held) + rest == Backslashes(held * 2) + ("\"" + rest)
  {
  }

  lemma NothingIsRead(rest: string)
    requires Ends(rest)
    ensures ParseArgument(rest, false, 0) == Parsed("", rest)
  {
    PlainIsRead("", rest, 0);
    assert "" + rest == rest && Backslashes(0) + "" == "";
  }

  lemma ClosingIsRead(rest: string, held: nat)
    requires Ends(rest)
    ensures ParseArgument(QuotedRest("", held) + rest, true, 0) == Parsed(Backslashes(held) + "", rest)
  {
    ClosingText(rest, held);
    ReadBackslashes(held * 2, "\"" + rest, true, 0);
    ReadQuote(rest, true, held);
    NothingIsRead(rest);
  }

  /** How the quoted text of a value starts. */
  lemma QuotedText(value: string, rest: string, held: nat)
    requires value != "" && value[0] != '\\'
    ensures var more := QuotedRest(value[1..], 0) + rest;
            QuotedRest(value, held) + rest == if value[0] == '"' then Backslashes(held * 2 + 1) + ("\"" + more)
                                              else Backslashes(held) + ([value[0]] + more)
  {
  }

  lemma ReadHeldOrdinary(c: char, more: string, held: nat)
    requires c != '\\' && c != '"'
    ensures ParseArgument(Backslashes(held) + ([c] + more), true, 0)
            == After(Backslashes(held) + [c], ParseArgument(more, true, 0))
  {
    ReadBackslashes(held, [c] + more, true, 0);
    ReadOrdinary(c, more, true, held);
  }

  lemma ReadHeldQuote(more: string, held: nat)
    ensures ParseArgument(Backslashes(held * 2 + 1) + ("\"" + more), true, 0)
            == After(Backslashes(held) + "\"", ParseArgument(more, true, 0))
  {
    ReadBackslashes(held * 2 + 1, "\"" + more, true, 0);
    ReadQuote(more, true, held);
  }

  /** Reading an escaped character, given what follows it. */
  lemma EscapedIsRead(c: char, tail: string, rest: string, held: nat, more: string)
    requires c != '\\' && ParseArgument(more, true, 0) == Parsed(tail, rest)
    ensures var text := if c == '"' then Backslashes(held * 2 + 1) + ("\"" + more)
                        else Backslashes(held) + ([c] + more);
            ParseArgument(text, true, 0) == Parsed(Backslashes(held) + [c] + tail, rest)
  {
    if c == '"' { ReadHeldQuote(more, held); } else { ReadHeldOrdinary(c, more, held); }
  }

  lemma ArgumentIsRead(value: string, rest: string)
    requires Ends(rest)
    ensures ParseArgument(CommandLineArgument(value) + rest, false, 0) == Parsed(value, rest)
    ensures CommandLineArgument(value) != "" && !IsBlank(CommandLineArgument(value)[0])
  {
    if IsPlain(value) {
      PlainIsBare(value);
      PlainIsRead(value, rest, 0);
      assert value[0] in value && Backslashes(0) + value == value;
    } else {
      var line := "\"" + QuotedRest(value, 0) + rest;
      assert line[0] == '"' && line[1..] == QuotedRest(value, 0) + rest;
      QuotedIsRead(value, rest, 0);
      assert Backslashes(0) + (Backslashes(0) + value) == value;
    }
  }

  function CommandLineArguments(arguments: seq<string>): seq<string> {
    if arguments == [] then [] else [CommandLineArgument(arguments[0])] + CommandLineArguments(arguments[1..])
  }

  /** The command line of a job. */
  function JoinedCommandLine(arguments: seq<string>): string {
    Join(CommandLineArguments(arguments), " ")
  }

  /** Splitting undoes quoting and joining, for every argument vector. */
  lemma {:induction false} SplitUndoesJoin(arguments: seq<string>)
    ensures SplitArguments(JoinedCommandLine(arguments)) == arguments
  {
    if arguments != [] {
      var first, others := arguments[0], arguments[1..];
      var rest := if others == [] then "" else " " + JoinedCommandLine(others);
      assert CommandLineArguments(arguments)[1..] == CommandLineArguments(others);
      assert JoinedCommandLine(arguments) == CommandLineArgument(first) + rest;
      ArgumentIsRead(first, rest);
      SplitUndoesJoin(others);
      if others != [] { assert rest[1..] == JoinedCommandLine(others); }
      assert arguments == [first] + others;
    }
  }
}
