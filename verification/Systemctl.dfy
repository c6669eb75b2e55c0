/** The option grammar of systemctl in `src/agent/agent-resolution.service.ts`: which arguments are options, values and
    positionals. Letters outside ASCII have no case here. */
module Systemctl {
  import opened Options
  import opened Texts
  import opened TargetPaths

  /** Known options in lower case, and whether each takes a value. */
  type OptionTable = map<string, bool>

  predicate IsTableEntry(option: string) {
    || (|option| == 2 && option[0] == '-' && option[1] != '-')
    || (|option| > 2 && option[..2] == "--" && '=' !in option)
  }

  predicate IsTable(table: OptionTable) {
    forall option :: option in table ==> IsTableEntry(option)
  }

  // ---------------------------------------------------------------- readings

  /** What one or two arguments can be. */
  datatype Item =
    | Flag(name: string)                                        // --name
    | Inline(name: string, value: string)                       // --name=value
    | Separate(name: string, value: string)                     // --name value
    | Short(flags: string)                                      // -abc
    | ShortAttached(flags: string, option: char, value: string) // -abcovalue
    | ShortSeparate(flags: string, option: char, value: string) // -abco value
    | Positional(text: string)

  /** Items up to a lone `--`, and the arguments behind it. */
  datatype Reading = Reading(items: seq<Item>, rest: Option<seq<string>>)

  predicate Has(table: OptionTable, option: string, takesValue: bool) {
    option in table && table[option] == takesValue
  }

  predicate IsLong(table: OptionTable, name: string, takesValue: bool) {
    |name| > 2 && name[..2] == "--" && '=' !in name && Has(table, Lower(name), takesValue)
  }

  predicate AreFlags(table: OptionTable, flags: string) {
    flags == "" || (Has(table, ['-', flags[0]], false) && AreFlags(table, flags[1..]))
  }

  predicate IsPositional(text: string) {
    text == "" || text[0] != '-' || text == "-"
  }

  predicate IsItem(table: OptionTable, item: Item) {
    match item
    case Flag(name) => IsLong(table, name, false)
    case Inline(name, value) => IsLong(table, name, true) && value != "" && OneLine(value)
    case Separate(name, _) => IsLong(table, name, true)
    case Short(flags) => flags != "" && AreFlags(table, flags)
    case ShortAttached(flags, option, value) => AreFlags(table, flags) && Has(table, ['-', option], true) && value != ""
    case ShortSeparate(flags, option, _) => AreFlags(table, flags) && Has(table, ['-', option], true)
    case Positional(text) => IsPositional(text)
  }

  function Written(item: Item): (arguments: seq<string>)
    ensures 1 <= |arguments| <= 2
  {
    match item
    case Flag(name) => [name]
    case Inline(name, value) => [name + "=" + value]
    case Separate(name, value) => [name, value]
    case Short(flags) => ["-" + flags]
    case ShortAttached(flags, option, value) => ["-" + flags + [option] + value]
    case ShortSeparate(flags, option, value) => ["-" + flags + [option], value]
    case Positional(text) => [text]
  }

  function AllWritten(items: seq<Item>): seq<string> {
    if items == [] then [] else Written(items[0]) + AllWritten(items[1..])
  }

  function WrittenReading(reading: Reading): seq<string> {
    AllWritten(reading.items) + if reading.rest.Some? then ["--"] + reading.rest.value else []
  }

  predicate AreItems(table: OptionTable, items: seq<Item>) {
    items == [] || (IsItem(table, items[0]) && AreItems(table, items[1..]))
  }

  /** The arguments, read in this way, are in the grammar. */
  predicate IsReading(table: OptionTable, reading: Reading, arguments: seq<string>) {
    AreItems(table, reading.items) && WrittenReading(reading) == arguments
  }

  // ---------------------------------------------------------------- reading from left to right

  /** The text up to the first equals sign. */
  function NameOf(argument: string): (name: string)
    ensures |name| <= |argument| && name == argument[..|name|] && '=' !in name
    ensures |name| < |argument| ==> argument[|name|] == '='
  {
    if argument == "" || argument[0] == '=' then "" else [argument[0]] + NameOf(argument[1..])
  }

  function ReadLong(table: OptionTable, arguments: seq<string>): Option<Item>
    requires arguments != []
  {
    var argument := arguments[0];
    var name := NameOf(argument);
    var option := Lower(name);
    if option !in table then None
    else if |name| == |argument| then
      if !table[option] then Some(Flag(name))
      else if |arguments| == 1 then None
      else Some(Separate(name, arguments[1]))
    else
      var value := argument[|name| + 1..];
      if !table[option] || value == "" || !OneLine(value) then None else Some(Inline(name, value))
  }

  function ReadShort(table: OptionTable, flags: string, letters: string, next: seq<string>): Option<Item>
    decreases |letters|
  {
    if letters == "" then Some(Short(flags))
    else
      var option := ['-', letters[0]];
      if option !in table then None
      else if !table[option] then ReadShort(table, flags + [letters[0]], letters[1..], next)
      else if |letters| > 1 then Some(ShortAttached(flags, letters[0], letters[1..]))
      else if next == [] then None
      else Some(ShortSeparate(flags, letters[0], next[0]))
  }

  function ReadItem(table: OptionTable, arguments: seq<string>): Option<Item>
    requires arguments != []
  {
    var argument := arguments[0];
    if IsPositional(argument) then Some(Positional(argument))
    else if |argument| >= 2 && argument[..2] == "--" then ReadLong(table, arguments)
    else ReadShort(table, "", argument[1..], arguments[1..])
  }

  function Read(table: OptionTable, arguments: seq<string>): Option<Reading>
    decreases |arguments|
  {
    if arguments == [] then Some(Reading([], None))
    else if arguments[0] == "--" then Some(Reading([], Some(arguments[1..])))
    else match ReadItem(table, arguments)
      case None => None
      case Some(item) =>
        if |Written(item)| > |arguments| then None
        else Behind([item], Read(table, arguments[|Written(item)|..]))
  }

  function Behind(items: seq<Item>, reading: Option<Reading>): Option<Reading> {
    match reading
    case None => None
    case Some(Reading(more, rest)) => Some(Reading(items + more, rest))
  }

  lemma BehindBoth(first: seq<Item>, second: seq<Item>, reading: Option<Reading>)
    ensures Behind(first, Behind(second, reading)) == Behind(first + second, reading)
    ensures Behind([], reading) == reading
  {
    if reading.Some? {
      assert first + (second + reading.value.items) == first + second + reading.value.items;
      assert [] + reading.value.items == reading.value.items;
    }
  }

  lemma ReadNext(table: OptionTable, item: Item, more: seq<string>)
    requires (Written(item) + more)[0] != "--" && ReadItem(table, Written(item) + more) == Some(item)
    ensures Read(table, Written(item) + more) == Behind([item], Read(table, more))
  {
    assert (Written(item) + more)[|Written(item)|..] == more;
  }

  // ---------------------------------------------------------------- every reading is found, and no other

  lemma {:induction false} NameBeforeEquals(name: string, value: string)
    requires '=' !in name
    ensures NameOf(name) == name && NameOf(name + "=" + value) == name
  {
    if name != "" {
      NameBeforeEquals(name[1..], value);
      assert (name + "=" + value)[1..] == name[1..] + "=" + value;
    }
  }

  lemma LongIsRead(table: OptionTable, item: Item, more: seq<string>)
    requires IsItem(table, item) && (item.Flag? || item.Inline? || item.Separate?)
    ensures ReadItem(table, Written(item) + more) == Some(item)
  {
    var value := if item.Flag? then "" else item.value;
    NameBeforeEquals(item.name, value);
    assert (item.name + "=" + value)[..2] == item.name[..2];
    assert (item.name + "=" + value)[|item.name| + 1..] == value;
  }

  lemma {:induction false} FlagsAreRead(table: OptionTable, before: string, flags: string, tail: string,
                                        next: seq<string>)
    requires AreFlags(table, flags)
    ensures ReadShort(table, before, flags + tail, next) == ReadShort(table, before + flags, tail, next)
    decreases |flags|
  {
    if flags == "" {
      assert flags + tail == tail && before + flags == before;
    } else {
      assert (flags + tail)[1..] == flags[1..] + tail;
      assert before + [flags[0]] + flags[1..] == before + flags;
      FlagsAreRead(table, before + [flags[0]], flags[1..], tail, next);
    }
  }

  lemma ShortIsRead(table: OptionTable, item: Item, more: seq<string>)
    requires IsTable(table) && IsItem(table, item) && (item.Short? || item.ShortAttached? || item.ShortSeparate?)
    ensures ReadItem(table, Written(item) + more) == Some(item)
  {
    var argument := Written(item)[0];
    var tail := if item.Short? then "" else if item.ShortAttached? then [item.option] + item.value else [item.option];
    var letters := item.flags + tail;
    assert argument[1..] == letters;
    var next := (Written(item) + more)[1..];
    FlagsAreRead(table, "", item.flags, tail, next);
    assert "" + item.flags == item.flags;
    FirstLetter(table, item.flags, tail);
    assert tail != "" ==> tail[1..] == if item.ShortAttached? then item.value else "";
    assert argument[..2] == ['-', letters[0]];
  }

  lemma FirstLetter(table: OptionTable, flags: string, tail: string)
    requires IsTable(table) && AreFlags(table, flags) && flags + tail != ""
    requires tail != "" ==> Has(table, ['-', tail[0]], true)
    ensures (flags + tail)[0] != '-'
  {
    var option := ['-', (flags + tail)[0]];
    assert option in table && IsTableEntry(option);
  }

  lemma ItemIsRead(table: OptionTable, item: Item, more: seq<string>)
    requires IsTable(table) && IsItem(table, item)
    ensures ReadItem(table, Written(item) + more) == Some(item) && (Written(item) + more)[0] != "--"
  {
    match item
    case Positional(_) =>
    case Short(_) => ShortIsRead(table, item, more); ShortIsNotEnd(table, item);
    case ShortAttached(_, _, _) => ShortIsRead(table, item, more); ShortIsNotEnd(table, item);
    case ShortSeparate(_, _, _) => ShortIsRead(table, item, more); ShortIsNotEnd(table, item);
    case _ => LongIsRead(table, item, more);
  }

  lemma ShortIsNotEnd(table: OptionTable, item: Item)
    requires IsTable(table) && IsItem(table, item) && (item.Short? || item.ShortAttached? || item.ShortSeparate?)
    ensures Written(item)[0] != "--"
  {
    var tail := if item.Short? then "" else if item.ShortAttached? then [item.option] + item.value else [item.option];
    FirstLetter(table, item.flags, tail);
    assert Written(item)[0] == "-" + (item.flags + tail);
    assert Written(item)[0][1] == (item.flags + tail)[0];
  }

  /** Items in front are read, whatever follows them. */
  lemma {:induction false} ItemsAreRead(table: OptionTable, items: seq<Item>, more: seq<string>)
    requires IsTable(table) && AreItems(table, items)
    ensures Read(table, AllWritten(items) + more) == Behind(items, Read(table, more))
  {
    if items == [] {
      assert AllWritten(items) + more == more;
      BehindBoth([], [], Read(table, more));
    } else {
      var tail := AllWritten(items[1..]) + more;
      ItemsAreRead(table, items[1..], more);
      FirstIsRead(table, items[0], tail);
      FirstWritten(items, more);
      BehindBoth([items[0]], items[1..], Read(table, more));
      assert [items[0]] + items[1..] == items;
    }
  }

  lemma FirstIsRead(table: OptionTable, item: Item, more: seq<string>)
    requires IsTable(table) && IsItem(table, item)
    ensures Read(table, Written(item) + more) == Behind([item], Read(table, more))
  {
    ItemIsRead(table, item, more);
    ReadNext(table, item, more);
  }

  lemma FirstWritten(items: seq<Item>, more: seq<string>)
    requires items != []
    ensures AllWritten(items) + more == Written(items[0]) + (AllWritten(items[1..]) + more)
  {
  }

  /** Writing any options, values and positionals and reading them recovers exactly those, in order. */
  lemma ReadUndoesWritten(table: OptionTable, reading: Reading)
    requires IsTable(table) && AreItems(table, reading.items)
    ensures Read(table, WrittenReading(reading)) == Some(reading)
  {
    var more := if reading.rest.Some? then ["--"] + reading.rest.value else [];
    ItemsAreRead(table, reading.items, more);
    assert reading.items + [] == reading.items;
    assert reading.rest.None? ==> more == [] && Read(table, more) == Some(Reading([], None));
    assert reading.rest.Some? ==> more[1..] == reading.rest.value;
  }

  lemma {:induction false} ReadShortIsItem(table: OptionTable, flags: string, letters: string, next: seq<string>)
    requires AreFlags(table, flags) && flags + letters != ""
    requires ReadShort(table, flags, letters, next).Some?
    ensures var item := ReadShort(table, flags, letters, next).value;
      && IsItem(table, item) && (item.Short? || item.ShortAttached? || item.ShortSeparate?)
      && Written(item)[0] == "-" + (flags + letters)
      && (|Written(item)| == 2 ==> next != [] && Written(item)[1] == next[0])
    decreases |letters|
  {
    if letters == "" {
      assert flags + letters == flags;
    } else {
      Regrouped(flags, letters);
      if Has(table, ['-', letters[0]], false) {
        FlagsWithOneMore(table, flags, letters[0]);
        ReadShortIsItem(table, flags + [letters[0]], letters[1..], next);
      }
    }
  }

  lemma Regrouped(flags: string, letters: string)
    requires letters != ""
    ensures flags + [letters[0]] + letters[1..] == flags + letters
    ensures "-" + flags + [letters[0]] + letters[1..] == "-" + (flags + letters)
    ensures |letters| == 1 ==> "-" + flags + [letters[0]] == "-" + (flags + letters)
  {
    assert letters == [letters[0]] + letters[1..];
  }

  lemma {:induction false} FlagsWithOneMore(table: OptionTable, flags: string, letter: char)
    requires AreFlags(table, flags) && Has(table, ['-', letter], false)
    ensures AreFlags(table, flags + [letter])
  {
    if flags != "" {
      FlagsWithOneMore(table, flags[1..], letter);
      assert (flags + [letter])[1..] == flags[1..] + [letter];
    }
  }

  lemma ReadItemIsItem(table: OptionTable, arguments: seq<string>)
    requires IsTable(table) && arguments != [] && arguments[0] != "--" && ReadItem(table, arguments).Some?
    ensures var item := ReadItem(table, arguments).value;
      IsItem(table, item) && |Written(item)| <= |arguments| && Written(item) == arguments[..|Written(item)|]
  {
    var argument := arguments[0];
    if !IsPositional(argument) {
      if argument[..2] == "--" {
        LongItem(table, arguments);
      } else {
        ReadShortIsItem(table, "", argument[1..], arguments[1..]);
        assert "-" + ("" + argument[1..]) == argument;
      }
    }
  }

  lemma LongNameIsLong(table: OptionTable, argument: string)
    requires IsTable(table) && |argument| > 2 && argument[..2] == "--" && Lower(NameOf(argument)) in table
    ensures |NameOf(argument)| > 2 && NameOf(argument)[..2] == "--"
  {
    var name := NameOf(argument);
    assert argument[0] == '-' && argument[1] == '-';
    assert Lower("--") == "--" && !IsTableEntry("--");
    if |name| == 2 { assert name == "--"; }
  }

  lemma LongItem(table: OptionTable, arguments: seq<string>)
    requires arguments != [] && |arguments[0]| > 2 && arguments[0][..2] == "--" && IsTable(table)
             && ReadLong(table, arguments).Some?
    ensures var item := ReadLong(table, arguments).value;
      IsItem(table, item) && |Written(item)| <= |arguments| && Written(item) == arguments[..|Written(item)|]
  {
    LongNameIsLong(table, arguments[0]);
    var name := NameOf(arguments[0]);
    if |name| < |arguments[0]| {
      assert arguments[0] == name + "=" + arguments[0][|name| + 1..];
    } else {
      assert name == arguments[0];
      assert table[Lower(name)] ==> [name, arguments[1]] == arguments[..2];
    }
  }

  lemma WrittenNext(item: Item, reading: Reading)
    ensures WrittenReading(Reading([item] + reading.items, reading.rest)) == Written(item) + WrittenReading(reading)
  {
    assert ([item] + reading.items)[1..] == reading.items;
    var end := if reading.rest.Some? then ["--"] + reading.rest.value else [];
    assert Written(item) + AllWritten(reading.items) + end == Written(item) + (AllWritten(reading.items) + end);
  }

  lemma NextAreItems(table: OptionTable, item: Item, items: seq<Item>)
    requires IsItem(table, item) && AreItems(table, items)
    ensures AreItems(table, [item] + items)
  {
    assert ([item] + items)[1..] == items;
  }

  lemma {:induction false} ReadIsReading(table: OptionTable, arguments: seq<string>)
    requires IsTable(table) && Read(table, arguments).Some?
    ensures IsReading(table, Read(table, arguments).value, arguments)
    decreases |arguments|
  {
    if arguments != [] {
      if arguments[0] == "--" {
        assert arguments == ["--"] + arguments[1..];
      } else {
        var item, rest := ReadFirst(table, arguments);
        ReadIsReading(table, rest);
        WrittenNext(item, Read(table, rest).value);
        NextAreItems(table, item, Read(table, rest).value.items);
      }
    }
  }

  lemma ReadFirst(table: OptionTable, arguments: seq<string>) returns (item: Item, rest: seq<string>)
    requires IsTable(table) && arguments != [] && arguments[0] != "--" && Read(table, arguments).Some?
    ensures IsItem(table, item) && |rest| < |arguments| && arguments == Written(item) + rest
    ensures Read(table, rest).Some?
    ensures Read(table, arguments) == Some(Reading([item] + Read(table, rest).value.items,
                                                   Read(table, rest).value.rest))
  {
    item := ReadItem(table, arguments).value;
    ReadItemIsItem(table, arguments);
    rest := arguments[|Written(item)|..];
  }

  /** Arguments are in the grammar exactly when they are read, and then in one way only. */
  lemma ReadingIsUnique(table: OptionTable, arguments: seq<string>, reading: Reading)
    requires IsTable(table)
    ensures IsReading(table, reading, arguments) <==> Read(table, arguments) == Some(reading)
  {
    if IsReading(table, reading, arguments) { ReadUndoesWritten(table, reading); }
    if Read(table, arguments).Some? { ReadIsReading(table, arguments); }
  }

  // ---------------------------------------------------------------- the options of systemctl

  /** Long options without their dashes, in groups, and short ones as letters. */
  const FLAGS_ALL_TO_GLOBAL: seq<string> := ["all", "dry-run", "failed", "firmware-setup", "force", "full", "global"]

  const FLAGS_HELP_TO_NO_PAGER: seq<string> := ["help", "marked", "mkdir", "no-ask-password", "no-block", "no-legend",
                                                "no-pager"]

  const FLAGS_NO_RELOAD_TO_READ_ONLY: seq<string> := ["no-reload", "no-warn", "no-wall", "now", "plain", "quiet",
                                                      "read-only"]

  const FLAGS_RECURSIVE_TO_USER: seq<string> := ["recursive", "reverse", "runtime", "show-transaction", "show-types",
                                                 "system", "user"]

  const FLAGS_VALUE_TO_WITH_DEPENDENCIES: seq<string> := ["value", "version", "wait", "with-dependencies"]

  const VALUED_BOOT_LOADER_ENTRY_TO_KILL_VALUE: seq<string> := ["boot-loader-entry", "boot-loader-menu",
                                                                "check-inhibitors", "host", "job-mode", "kill-value"]

  const VALUED_KILL_WHOM_TO_PROPERTY: seq<string> := ["kill-whom", "legend", "machine", "output", "preset-mode",
                                                      "property"]

  const VALUED_ROOT_TO_WHAT: seq<string> := ["root", "signal", "state", "timestamp", "type", "what"]

  const LONG_FLAGS := FLAGS_ALL_TO_GLOBAL + FLAGS_HELP_TO_NO_PAGER + FLAGS_NO_RELOAD_TO_READ_ONLY
      + FLAGS_RECURSIVE_TO_USER + FLAGS_VALUE_TO_WITH_DEPENDENCIES

  const LONG_VALUED := VALUED_BOOT_LOADER_ENTRY_TO_KILL_VALUE + VALUED_KILL_WHOM_TO_PROPERTY + VALUED_ROOT_TO_WHAT

  const SHORT_FLAGS := "Tafhilqr"

  const SHORT_VALUED := "HMPnopst"

  predicate AreNames(names: seq<string>) {
    forall name :: name in names ==> name != "" && '=' !in name
  }

  predicate AreLetters(letters: string) {
    letters == "" || (letters[0] != '-' && AreLetters(letters[1..]))
  }

  function LongOptions(names: seq<string>, takesValue: bool): OptionTable {
    if names == [] then map[] else LongOptions(names[1..], takesValue)["--" + names[0] := takesValue]
  }

  function ShortOptions(letters: string, takesValue: bool): OptionTable {
    if letters == "" then map[] else ShortOptions(letters[1..], takesValue)[['-', letters[0]] := takesValue]
  }

  function SystemctlOptions(): OptionTable {
    LongOptions(LONG_FLAGS, false) + LongOptions(LONG_VALUED, true)
    + ShortOptions(SHORT_FLAGS, false) + ShortOptions(SHORT_VALUED, true)
  }

  lemma {:induction false} LongOptionsAreATable(names: seq<string>, takesValue: bool)
    requires AreNames(names)
    ensures IsTable(LongOptions(names, takesValue))
  {
    if names != [] {
      assert names[0] in names && forall name :: name in names[1..] ==> name in names;
      LongOptionsAreATable(names[1..], takesValue);
      assert ("--" + names[0])[..2] == "--" && '=' !in "--" + names[0];
    }
  }

  lemma {:induction false} ShortOptionsAreATable(letters: string, takesValue: bool)
    requires AreLetters(letters)
    ensures IsTable(ShortOptions(letters, takesValue))
  {
    if letters != "" { ShortOptionsAreATable(letters[1..], takesValue); }
  }

  lemma FlagsAllToGlobalAreNames()
    ensures AreNames(FLAGS_ALL_TO_GLOBAL)
  {
  }

  lemma FlagsHelpToNoPagerAreNames()
    ensures AreNames(FLAGS_HELP_TO_NO_PAGER)
  {
  }

  lemma FlagsNoReloadToReadOnlyAreNames()
    ensures AreNames(FLAGS_NO_RELOAD_TO_READ_ONLY)
  {
  }

  lemma FlagsRecursiveToUserAreNames()
    ensures AreNames(FLAGS_RECURSIVE_TO_USER)
  {
  }

  lemma FlagsValueToWithDependenciesAreNames()
    ensures AreNames(FLAGS_VALUE_TO_WITH_DEPENDENCIES)
  {
  }

  lemma ValuedBootLoaderEntryToKillValueAreNames()
    ensures AreNames(VALUED_BOOT_LOADER_ENTRY_TO_KILL_VALUE)
  {
  }

  lemma ValuedKillWhomToPropertyAreNames()
    ensures AreNames(VALUED_KILL_WHOM_TO_PROPERTY)
  {
  }

  lemma ValuedRootToWhatAreNames()
    ensures AreNames(VALUED_ROOT_TO_WHAT)
  {
  }

  lemma LongAreNames()
    ensures AreNames(LONG_FLAGS) && AreNames(LONG_VALUED)
  {
    FlagsAllToGlobalAreNames();
    FlagsHelpToNoPagerAreNames();
    FlagsNoReloadToReadOnlyAreNames();
    FlagsRecursiveToUserAreNames();
    FlagsValueToWithDependenciesAreNames();
    ValuedBootLoaderEntryToKillValueAreNames();
    ValuedKillWhomToPropertyAreNames();
    ValuedRootToWhatAreNames();
  }

  lemma LettersAreLetters()
    ensures AreLetters(SHORT_FLAGS) && AreLetters(SHORT_VALUED)
  {
  }

  lemma SystemctlOptionsAreATable()
    ensures IsTable(SystemctlOptions())
  {
    LongAreNames();
    LettersAreLetters();
    LongOptionsAreATable(LONG_FLAGS, false);
    LongOptionsAreATable(LONG_VALUED, true);
    ShortOptionsAreATable(SHORT_FLAGS, false);
    ShortOptionsAreATable(SHORT_VALUED, true);
  }

  ghost predicate IsLongOf(names: seq<string>, option: string) {
    exists name :: name in names && option == "--" + name
  }

  ghost predicate IsShortOf(letters: string, option: string) {
    exists k :: 0 <= k < |letters| && option == "-" + [letters[k]]
  }

  lemma {:induction false} LongOptionsMean(names: seq<string>, takesValue: bool, option: string)
    ensures option in LongOptions(names, takesValue) <==> IsLongOf(names, option)
    ensures option in LongOptions(names, takesValue) ==> LongOptions(names, takesValue)[option] == takesValue
  {
    if names != [] {
      LongOptionsMean(names[1..], takesValue, option);
      assert names == [names[0]] + names[1..];
      if name :| name in names[1..] && option == "--" + name { assert name in names; }
      if name :| name in names && option == "--" + name { assert name == names[0] || name in names[1..]; }
    }
  }

  lemma {:induction false} ShortOptionsMean(letters: string, takesValue: bool, option: string)
    ensures option in ShortOptions(letters, takesValue) <==> IsShortOf(letters, option)
    ensures option in ShortOptions(letters, takesValue) ==> ShortOptions(letters, takesValue)[option] == takesValue
  {
    if letters != "" {
      ShortOptionsMean(letters[1..], takesValue, option);
      assert ['-', letters[0]] == "-" + [letters[0]];
      if k :| 0 <= k < |letters[1..]| && option == "-" + [letters[1..][k]] {
        assert option == "-" + [letters[k + 1]];
      }
      if k :| 0 <= k < |letters| && option == "-" + [letters[k]] {
        assert k > 0 ==> letters[1..][k - 1] == letters[k];
      }
    }
  }

  /** The options known are exactly those listed, and those listed with a value take one. */
  lemma OptionsAreListed(option: string)
    ensures var table := SystemctlOptions();
      && (option in table
          <==> IsLongOf(LONG_FLAGS, option) || IsLongOf(LONG_VALUED, option) || IsShortOf(SHORT_FLAGS, option)
               || IsShortOf(SHORT_VALUED, option))
      && (option in table && IsShortOf(SHORT_VALUED, option) ==> table[option])
      && (option in table && IsShortOf(SHORT_FLAGS, option) && !IsShortOf(SHORT_VALUED, option) ==> !table[option])
      && (option in table && !IsShortOf(SHORT_FLAGS, option) && !IsShortOf(SHORT_VALUED, option)
          ==> (table[option] <==> IsLongOf(LONG_VALUED, option)))
  {
    LongOptionsMean(LONG_FLAGS, false, option);
    LongOptionsMean(LONG_VALUED, true, option);
    ShortOptionsMean(SHORT_FLAGS, false, option);
    ShortOptionsMean(SHORT_VALUED, true, option);
  }
}
