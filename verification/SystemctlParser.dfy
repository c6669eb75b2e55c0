/** The parser of systemctl arguments in `src/agent/agent-resolution.service.ts`, proved against the grammar: it finds
    the one reading there is. Normalizing the name of a command is a parameter. */
module SystemctlParser {
  import opened Options
  import opened Texts
  import opened TargetPaths
  import opened Systemctl

  /** A positional with its place among the arguments. */
  datatype Word = Word(command: string, index: nat)

  datatype Parsed = Parsed(valid: bool, positionals: seq<Word>, options: set<string>)

  /** The name of a command without directory and executable suffix, in lower case. */
  type Normalizer = string -> string

  function FlagOptions(flags: string): set<string> {
    if flags == "" then {} else FlagOptions(flags[..|flags| - 1]) + {['-', flags[|flags| - 1]]}
  }

  function ItemOptions(item: Item): set<string> {
    match item
    case Flag(name) => {Lower(name)}
    case Inline(name, _) => {Lower(name)}
    case Separate(name, _) => {Lower(name)}
    case Short(flags) => FlagOptions(flags)
    case ShortAttached(flags, option, _) => FlagOptions(flags) + {['-', option]}
    case ShortSeparate(flags, option, _) => FlagOptions(flags) + {['-', option]}
    case Positional(_) => {}
  }

  function OptionsOf(items: seq<Item>): set<string> {
    if items == [] then {} else OptionsOf(items[..|items| - 1]) + ItemOptions(items[|items| - 1])
  }

  /** The positionals among items, each at the place where it was written. */
  function Words(command: Normalizer, items: seq<Item>): seq<Word> {
    if items == [] then []
    else
      var before, last := items[..|items| - 1], items[|items| - 1];
      if last.Positional? then Words(command, before) + [Word(command(last.text), |AllWritten(before)|)]
      else Words(command, before)
  }

  /** Behind `--`, all are positionals. */
  function RestWords(command: Normalizer, rest: seq<string>, start: nat): seq<Word> {
    if rest == [] then []
    else RestWords(command, rest[..|rest| - 1], start) + [Word(command(rest[|rest| - 1]), start + |rest| - 1)]
  }

  function AllWords(command: Normalizer, reading: Reading): seq<Word> {
    Words(command, reading.items)
    + if reading.rest.Some? then RestWords(command, reading.rest.value, |AllWritten(reading.items)| + 1) else []
  }

  /** What the parser makes of the arguments, told by their one reading. */
  function Meaning(table: OptionTable, command: Normalizer, arguments: seq<string>): Parsed {
    match Read(table, arguments)
    case None => Parsed(false, [], {})
    case Some(reading) => Parsed(true, AllWords(command, reading), OptionsOf(reading.items))
  }

  // ---------------------------------------------------------------- what the meaning holds

  /** The item is, or clusters, this option; long options count in lower case. */
  ghost predicate NamesOption(item: Item, option: string) {
    match item
    case Flag(name) => option == Lower(name)
    case Inline(name, _) => option == Lower(name)
    case Separate(name, _) => option == Lower(name)
    case Short(flags) => Clusters(flags, option)
    case ShortAttached(flags, last, _) => Clusters(flags, option) || option == "-" + [last]
    case ShortSeparate(flags, last, _) => Clusters(flags, option) || option == "-" + [last]
    case Positional(_) => false
  }

  ghost predicate Clusters(flags: string, option: string) {
    exists k :: 0 <= k < |flags| && option == "-" + [flags[k]]
  }

  lemma {:induction false} FlagOptionsMeans(flags: string, option: string)
    ensures option in FlagOptions(flags) <==> Clusters(flags, option)
  {
    if flags != "" {
      var before, last := flags[..|flags| - 1], flags[|flags| - 1];
      FlagOptionsMeans(before, option);
      if Clusters(before, option) {
        var k :| 0 <= k < |before| && option == "-" + [before[k]];
        assert option == "-" + [flags[k]];
      }
      assert ['-', last] == "-" + [last];
    }
  }

  lemma ItemOptionsMeans(item: Item, option: string)
    ensures option in ItemOptions(item) <==> NamesOption(item, option)
  {
    match item
    case Short(flags) => FlagOptionsMeans(flags, option);
    case ShortAttached(flags, last, _) =>
      FlagOptionsMeans(flags, option);
      assert ['-', last] == "-" + [last];
    case ShortSeparate(flags, last, _) =>
      FlagOptionsMeans(flags, option);
      assert ['-', last] == "-" + [last];
    case _ =>
  }

  /** The options found are exactly those that some item is or clusters. */
  lemma {:induction false} OptionsAreNamed(items: seq<Item>, option: string)
    ensures option in OptionsOf(items) <==> exists k :: 0 <= k < |items| && NamesOption(items[k], option)
  {
    if items != [] {
      var before, last := items[..|items| - 1], items[|items| - 1];
      OptionsAreNamed(before, option);
      ItemOptionsMeans(last, option);
      if k :| 0 <= k < |before| && NamesOption(before[k], option) { assert NamesOption(items[k], option); }
      if k :| 0 <= k < |items| && NamesOption(items[k], option) { assert k < |before| ==> before[k] == items[k]; }
    }
  }

  /** The item at k is a positional, and the word is it, at the place where it is written. */
  ghost predicate IsWordOf(command: Normalizer, items: seq<Item>, k: int, word: Word) {
    0 <= k < |items| && items[k].Positional?
      && word == Word(command(items[k].text), |AllWritten(items[..k])|)
  }

  /** The words are exactly the positionals. */
  lemma {:induction false} WordsAreAllPositionals(command: Normalizer, items: seq<Item>, word: Word)
    ensures word in Words(command, items) <==> exists k :: IsWordOf(command, items, k, word)
  {
    if items != [] {
      var before, last := items[..|items| - 1], |items| - 1;
      WordsAreAllPositionals(command, before, word);
      forall k | 0 <= k < last ensures IsWordOf(command, items, k, word) <==> IsWordOf(command, before, k, word) {
        assert before[..k] == items[..k];
      }
      if k :| IsWordOf(command, before, k, word) { assert IsWordOf(command, items, k, word); }
      if k :| IsWordOf(command, items, k, word) { assert k < last ==> IsWordOf(command, before, k, word); }
      if items[last].Positional? {
        assert IsWordOf(command, items, last, Word(command(items[last].text), |AllWritten(before)|));
      }
    }
  }

  /** Writing any options, values and positionals and parsing the arguments recovers exactly those, in order. */
  lemma ParseUndoesWritten(table: OptionTable, command: Normalizer, reading: Reading)
    requires IsTable(table) && AreItems(table, reading.items)
    ensures Meaning(table, command, WrittenReading(reading))
            == Parsed(true, AllWords(command, reading), OptionsOf(reading.items))
  {
    ReadUndoesWritten(table, reading);
  }

  lemma {:induction false} AllWrittenOfBoth(items: seq<Item>, more: seq<Item>)
    ensures AllWritten(items + more) == AllWritten(items) + AllWritten(more)
  {
    if items == [] {
      assert items + more == more;
    } else {
      assert (items + more)[1..] == items[1..] + more;
      AllWrittenOfBoth(items[1..], more);
    }
  }

  /** The loop over one cluster of short options. */
  method ScanShort(table: OptionTable, letters: string, next: seq<string>)
    returns (ok: bool, usesNext: bool, options: set<string>)
    ensures ok <==> ReadShort(table, "", letters, next).Some?
    ensures ok ==> options == ItemOptions(ReadShort(table, "", letters, next).value)
    ensures ok ==> usesNext == (|Written(ReadShort(table, "", letters, next).value)| == 2)
  {
    options, usesNext := {}, false;
    var k := 0;
    while k < |letters|
      invariant 0 <= k <= |letters|
      invariant ReadShort(table, "", letters, next) == ReadShort(table, letters[..k], letters[k..], next)
      invariant options == FlagOptions(letters[..k]) && !usesNext
    {
      var option := ['-', letters[k]];
      assert letters[k..][0] == letters[k] && letters[k..][1..] == letters[k + 1..];
      assert letters[..k] + [letters[k]] == letters[..k + 1];
      if option !in table { return false, false, {}; }
      if table[option] {
        var remainder := letters[k + 1..];
        if remainder == "" {
          if next == [] { return false, false, {}; }
          usesNext := true;
        }
        options := options + {option};
        return true, usesNext, options;
      }
      assert letters[..k + 1][..k] == letters[..k];
      options := options + {option};
      k := k + 1;
    }
    ok := true;
    assert letters[..k] == letters && letters[k..] == "";
  }

  /** One argument that starts with two dashes. */
  method ScanLong(table: OptionTable, argument: string, next: seq<string>)
    returns (ok: bool, usesNext: bool, options: set<string>)
    ensures ok <==> ReadLong(table, [argument] + next).Some?
    ensures ok ==> options == ItemOptions(ReadLong(table, [argument] + next).value)
    ensures ok ==> usesNext == (|Written(ReadLong(table, [argument] + next).value)| == 2)
  {
    var name := NameOf(argument);
    var hasValue := |name| < |argument|;
    var value := if hasValue then argument[|name| + 1..] else "";
    var option := Lower(name);
    if (hasValue && !OneLine(value)) || option !in table { return false, false, {}; }
    usesNext := false;
    if table[option] && value == "" {
      if next == [] || hasValue { return false, false, {}; }
      usesNext := true;
    } else if !table[option] && hasValue {
      return false, false, {};
    }
    return true, usesNext, {option};
  }

  /** Reading by one table. */
  type Reader = seq<string> -> Option<Reading>

  function ReaderOf(table: OptionTable): Reader {
    arguments => Read(table, arguments)
  }

  /** The item comes first in what is left to read. */
  ghost predicate IsNext(read: Reader, rest: seq<string>, item: Item) {
    |Written(item)| <= |rest| && read(rest) == Behind([item], read(rest[|Written(item)|..]))
  }

  lemma ItemIsNext(table: OptionTable, rest: seq<string>, item: Item)
    requires IsTable(table) && rest != [] && rest[0] != "--" && ReadItem(table, rest) == Some(item)
    ensures IsNext(ReaderOf(table), rest, item)
  {
    ReadItemIsItem(table, rest);
  }

  lemma WrittenAlone(item: Item)
    ensures AllWritten([item]) == Written(item)
  {
    assert AllWritten([item]) == Written(item) + AllWritten([item][1..]);
  }

  lemma OneMoreItem(command: Normalizer, items: seq<Item>, item: Item)
    ensures OptionsOf(items + [item]) == OptionsOf(items) + ItemOptions(item)
    ensures Words(command, items + [item])
      == if item.Positional? then Words(command, items) + [Word(command(item.text), |AllWritten(items)|)]
         else Words(command, items)
  {
    assert (items + [item])[..|items|] == items;
  }

  /** One or two arguments, with what they are. */
  method ScanItem(table: OptionTable, command: Normalizer, arguments: seq<string>, index: nat)
    returns (ok: bool, usesNext: bool, found: set<string>, words: seq<Word>)
    requires IsTable(table) && index < |arguments| && arguments[index] != "--"
    ensures ok <==> ReadItem(table, arguments[index..]).Some?
    ensures ok ==>
      var item := ReadItem(table, arguments[index..]).value;
      found == ItemOptions(item) && usesNext == (|Written(item)| == 2)
      && words == if item.Positional? then [Word(command(item.text), index)] else []
  {
    var argument := arguments[index];
    ok, usesNext, found, words := true, false, {}, [];
    if argument == "" || argument[0] != '-' || argument == "-" {
      words := [Word(command(argument), index)];
    } else if argument[..2] == "--" {
      ok, usesNext, found := ScanLong(table, argument, arguments[index + 1..]);
      assert arguments[index..] == [argument] + arguments[index + 1..];
    } else {
      ok, usesNext, found := ScanShort(table, argument[1..], arguments[index + 1..]);
      assert arguments[index..][1..] == arguments[index + 1..];
      if ok { ShortIsNoPositional(table, argument[1..], arguments[index + 1..]); }
    }
  }

  lemma {:induction false} ShortIsNoPositional(table: OptionTable, letters: string, next: seq<string>)
    requires letters != "" && ReadShort(table, "", letters, next).Some?
    ensures !ReadShort(table, "", letters, next).value.Positional?
  {
    ReadShortIsItem(table, "", letters, next);
  }

  /** The items up to `index` are behind us. */
  ghost predicate IsReadUpTo(read: Reader, arguments: seq<string>, items: seq<Item>, index: nat) {
    && index <= |arguments| && |AllWritten(items)| == index
    && read(arguments) == Behind(items, read(arguments[index..]))
  }

  lemma NothingRead(read: Reader, arguments: seq<string>)
    ensures IsReadUpTo(read, arguments, [], 0)
  {
    BehindBoth([], [], read(arguments));
    assert arguments[0..] == arguments;
  }

  lemma NoneReadable(table: OptionTable, command: Normalizer, arguments: seq<string>, items: seq<Item>, index: nat)
    requires IsReadUpTo(ReaderOf(table), arguments, items, index) && index < |arguments| && arguments[index] != "--"
    requires ReadItem(table, arguments[index..]).None?
    ensures Meaning(table, command, arguments) == Parsed(false, [], {})
  {
  }

  lemma EndIsRead(table: OptionTable, arguments: seq<string>, index: nat)
    requires index <= |arguments| && (index == |arguments| || arguments[index] == "--")
    ensures Read(table, arguments[index..]) == Some(Reading([], if index < |arguments|
                                                                  then Some(arguments[index + 1..]) else None))
  {
    if index < |arguments| {
      assert arguments[index..][1..] == arguments[index + 1..];
    } else {
      assert arguments[index..] == [];
    }
  }

  lemma MeaningOf(table: OptionTable, command: Normalizer, arguments: seq<string>, reading: Reading)
    requires Read(table, arguments) == Some(reading)
    ensures Meaning(table, command, arguments) == Parsed(true, AllWords(command, reading), OptionsOf(reading.items))
  {
  }

  lemma AllRead(table: OptionTable, command: Normalizer, arguments: seq<string>, items: seq<Item>, index: nat)
    requires IsReadUpTo(ReaderOf(table), arguments, items, index) && (index == |arguments| || arguments[index] == "--")
    ensures Meaning(table, command, arguments) == Parsed(true,
                                                         Words(command, items)
                                                             + RestFrom(command, arguments, index), OptionsOf(items))
  {
    EndIsRead(table, arguments, index);
    assert items + [] == items;
    MeaningOf(table, command, arguments,
              Reading(items, if index < |arguments| then Some(arguments[index + 1..]) else None));
  }

  /** The loop's state: what has been found among the items behind us. */
  datatype Progress = Progress(index: nat, positionals: seq<Word>, options: set<string>)

  ghost predicate ScannedAs(read: Reader, command: Normalizer, arguments: seq<string>, items: seq<Item>,
                            progress: Progress) {
    IsReadUpTo(read, arguments, items, progress.index) && IsFound(command, items, progress)
  }

  ghost predicate Scanned(table: OptionTable, command: Normalizer, arguments: seq<string>, progress: Progress) {
    exists items :: ScannedAs(ReaderOf(table), command, arguments, items, progress)
  }

  lemma NothingScanned(table: OptionTable, command: Normalizer, arguments: seq<string>)
    ensures Scanned(table, command, arguments, Progress(0, [], {}))
  {
    NothingRead(ReaderOf(table), arguments);
    assert ScannedAs(ReaderOf(table), command, arguments, [], Progress(0, [], {}));
  }

  method ParseSystemctlArguments(table: OptionTable, command: Normalizer, arguments: seq<string>)
    returns (parsed: Parsed)
    requires IsTable(table)
    ensures parsed == Meaning(table, command, arguments)
  {
    var ok, progress := ParseItems(table, command, arguments);
    if !ok { return Parsed(false, [], {}); }
    var more := ParseRest(command, arguments, progress.index);
    Finished(table, command, arguments, progress, more);
    parsed := Parsed(true, progress.positionals + more, progress.options);
  }

  lemma Finished(table: OptionTable, command: Normalizer, arguments: seq<string>, progress: Progress, more: seq<Word>)
    requires progress.index <= |arguments| && IsEnd(arguments, progress.index)
             && Scanned(table, command, arguments, progress)
    requires more == RestFrom(command, arguments, progress.index)
    ensures Meaning(table, command, arguments) == Parsed(true, progress.positionals + more, progress.options)
  {
    var items :| ScannedAs(ReaderOf(table), command, arguments, items, progress);
    AllRead(table, command, arguments, items, progress.index);
  }

  function RestFrom(command: Normalizer, arguments: seq<string>, end: nat): seq<Word>
    requires end <= |arguments|
  {
    if end < |arguments| then RestWords(command, arguments[end + 1..], end + 1) else []
  }

  /** Where options end. */
  predicate IsEnd(arguments: seq<string>, index: nat) {
    index >= |arguments| || arguments[index] == "--"
  }

  ghost predicate IsInvalid(table: OptionTable, command: Normalizer, arguments: seq<string>) {
    Meaning(table, command, arguments) == Parsed(false, [], {})
  }

  /** The loop before `--`. */
  method ParseItems(table: OptionTable, command: Normalizer, arguments: seq<string>)
    returns (ok: bool, progress: Progress)
    requires IsTable(table)
    ensures ok
      ==> progress.index <= |arguments| && IsEnd(arguments, progress.index)
          && Scanned(table, command, arguments, progress)
    ensures !ok ==> IsInvalid(table, command, arguments)
  {
    progress, ok := Progress(0, [], {}), true;
    NothingScanned(table, command, arguments);
    while !IsEnd(arguments, progress.index)
      invariant progress.index <= |arguments| && Scanned(table, command, arguments, progress)
      decreases |arguments| - progress.index
    {
      ok, progress := ParseItem(table, command, arguments, progress);
      if !ok { return; }
    }
  }

  /** The body of the loop before `--`. */
  method ParseItem(table: OptionTable, command: Normalizer, arguments: seq<string>, before: Progress)
    returns (ok: bool, after: Progress)
    requires IsTable(table) && before.index < |arguments| && arguments[before.index] != "--"
    requires Scanned(table, command, arguments, before)
    ensures ok ==> before.index < after.index <= |arguments| && Scanned(table, command, arguments, after)
    ensures !ok ==> IsInvalid(table, command, arguments)
  {
    ghost var items :| ScannedAs(ReaderOf(table), command, arguments, items, before);
    var found, words, usesNext;
    ok, usesNext, found, words := ScanItem(table, command, arguments, before.index);
    if !ok {
      NoneReadable(table, command, arguments, items, before.index);
      return false, before;
    }
    after := Progress(before.index + (if usesNext then 2 else 1), before.positionals + words, before.options + found);
    ghost var item := ReadItem(table, arguments[before.index..]).value;
    ItemIsNext(table, arguments[before.index..], item);
    Advanced(ReaderOf(table), command, arguments, items, before, item, after);
  }

  lemma Advanced(read: Reader, command: Normalizer, arguments: seq<string>, items: seq<Item>, before: Progress,
                 item: Item, after: Progress)
    requires ScannedAs(read, command, arguments, items, before) && IsNext(read, arguments[before.index..], item)
    requires after.index == before.index + |Written(item)| && after.options == before.options + ItemOptions(item)
    requires after.positionals == before.positionals + if item.Positional?
                                                         then [Word(command(item.text), before.index)] else []
    ensures before.index < after.index <= |arguments| && ScannedAs(read, command, arguments, items + [item], after)
  {
    ReadUpToNext(read, arguments, items, before.index, item);
    FoundWithNext(command, items, before, item, after);
  }

  lemma ReadUpToNext(read: Reader, arguments: seq<string>, items: seq<Item>, index: nat, item: Item)
    requires IsReadUpTo(read, arguments, items, index) && IsNext(read, arguments[index..], item)
    ensures IsReadUpTo(read, arguments, items + [item], index + |Written(item)|)
  {
    AllWrittenOfBoth(items, [item]);
    WrittenAlone(item);
    assert arguments[index..][|Written(item)|..] == arguments[index + |Written(item)|..];
    BehindBoth(items, [item], read(arguments[index + |Written(item)|..]));
  }

  /** The positionals and options among the items behind us. */
  ghost predicate IsFound(command: Normalizer, items: seq<Item>, progress: Progress) {
    progress.positionals == Words(command, items) && progress.options == OptionsOf(items)
  }

  lemma FoundWithNext(command: Normalizer, items: seq<Item>, before: Progress, item: Item, after: Progress)
    requires IsFound(command, items, before) && before.index == |AllWritten(items)|
    requires after.options == before.options + ItemOptions(item)
    requires after.positionals == before.positionals + if item.Positional?
                                                         then [Word(command(item.text), before.index)] else []
    ensures IsFound(command, items + [item], after)
  {
    OneMoreItem(command, items, item);
  }

  /** Behind the end of options. */
  method ParseRest(command: Normalizer, arguments: seq<string>, end: nat) returns (words: seq<Word>)
    requires end <= |arguments|
    ensures words == RestFrom(command, arguments, end)
  {
    words := [];
    if end == |arguments| { return; }
    for k := end + 1 to |arguments|
      invariant words == RestWords(command, arguments[end + 1..k], end + 1)
    {
      assert arguments[end + 1..k + 1][..k - (end + 1)] == arguments[end + 1..k];
      words := words + [Word(command(arguments[k]), k)];
    }
    assert arguments[end + 1..|arguments|] == arguments[end + 1..];
  }
}
