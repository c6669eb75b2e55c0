/** Which restarts a systemctl command line asks for: the systemctl part of `structuralRestartCapabilities` in
    `src/agent/agent-resolution.service.ts`. */
module SystemctlRestarts {
  import opened Options
  import opened Systemctl
  import opened SystemctlParser

  datatype Capability = Restart | Reboot

  predicate IsPowerVerb(verb: string) {
    verb in {"emergency", "halt", "kexec", "poweroff", "reboot", "rescue", "soft-reboot"}
  }

  predicate IsPowerTarget(unit: string) {
    || unit in {"ctrl-alt-del.target", "emergency.target", "halt.target", "kexec.target"}
    || unit in {"poweroff.target", "reboot.target"}
    || unit in {"rescue.target", "soft-reboot.target", "runlevel0.target", "runlevel1.target", "runlevel6.target"}
    || unit in {"shutdown.target", "sigpwr.target"}
  }

  predicate IsUnitOperation(verb: string) {
    verb in {"isolate", "reload-or-restart", "restart", "start", "try-reload-or-restart", "try-restart"}
  }

  predicate IsEnableOperation(verb: string) {
    verb in {"enable", "preset", "reenable"}
  }

  /** Some positional from `from` on names a power state. */
  predicate NamesPowerTarget(command: Normalizer, arguments: seq<string>, words: seq<Word>, from: nat)
    decreases |words| - from
  {
    from < |words| &&
    ((words[from].index < |arguments| && IsPowerTarget(command(arguments[words[from].index])))
     || NamesPowerTarget(command, arguments, words, from + 1))
  }

  function Capabilities(table: OptionTable, command: Normalizer, arguments: seq<string>): set<Capability> {
    CapabilitiesOf(command, arguments, Meaning(table, command, arguments))
  }

  function CapabilitiesOf(command: Normalizer, arguments: seq<string>, parsed: Parsed): set<Capability> {
    if !parsed.valid then {Restart, Reboot}
    else if parsed.positionals == [] then {}
    else
      var subcommand := parsed.positionals[0].command;
      if IsPowerVerb(subcommand) then {Reboot}
      else if IsUnitOperation(subcommand) && NamesPowerTarget(command, arguments, parsed.positionals, 1) then {Reboot}
      else if IsEnableOperation(subcommand) && "--now" in parsed.options
        && NamesPowerTarget(command, arguments, parsed.positionals, 1) then {Reboot}
      else if subcommand == "restart" then {Restart}
      else {}
  }

  // ---------------------------------------------------------------- positionals are where they were written

  ghost predicate InPlace(command: Normalizer, arguments: seq<string>, words: seq<Word>) {
    && (forall k :: 0 <= k < |words|
                    ==> words[k].index < |arguments| && words[k].command == command(arguments[words[k].index]))
    && forall j, k :: 0 <= j < k < |words| ==> words[j].index < words[k].index
  }

  lemma InPlaceOfOneMore(command: Normalizer, arguments: seq<string>, words: seq<Word>, index: nat)
    requires InPlace(command, arguments, words) && index < |arguments|
    requires words == [] || words[|words| - 1].index < index
    ensures InPlace(command, arguments, words + [Word(command(arguments[index]), index)])
  {
  }

  lemma OneMoreWritten(items: seq<Item>, item: Item)
    ensures AllWritten(items + [item]) == AllWritten(items) + Written(item)
  {
    AllWrittenOfBoth(items, [item]);
    WrittenAlone(item);
  }

  /** The words among items that come first in the arguments. */
  ghost predicate WordsFit(command: Normalizer, items: seq<Item>, arguments: seq<string>) {
    var words := Words(command, items);
    InPlace(command, arguments, words) && (words != [] ==> words[|words| - 1].index < |AllWritten(items)|)
  }

  lemma PositionalStands(before: seq<string>, item: Item, arguments: seq<string>)
    requires item.Positional? && before + Written(item) <= arguments
    ensures |before| < |arguments| && arguments[|before|] == item.text
  {
    assert (before + Written(item))[|before|] == item.text;
  }

  lemma OneMoreFits(command: Normalizer, items: seq<Item>, item: Item, arguments: seq<string>)
    requires WordsFit(command, items, arguments) && AllWritten(items) + Written(item) <= arguments
    ensures WordsFit(command, items + [item], arguments)
  {
    OneMoreWritten(items, item);
    OneMoreItem(command, items, item);
    if item.Positional? {
      PositionalStands(AllWritten(items), item, arguments);
      InPlaceOfOneMore(command, arguments, Words(command, items), |AllWritten(items)|);
    }
  }

  lemma {:induction false} WordsAreInPlace(command: Normalizer, items: seq<Item>, arguments: seq<string>)
    requires AllWritten(items) <= arguments
    ensures WordsFit(command, items, arguments)
  {
    if items != [] {
      var before, last := items[..|items| - 1], items[|items| - 1];
      assert items == before + [last];
      OneMoreWritten(before, last);
      WordsAreInPlace(command, before, arguments);
      OneMoreFits(command, before, last, arguments);
    }
  }

  lemma {:induction false} RestWordAt(command: Normalizer, rest: seq<string>, start: nat, k: nat)
    requires k < |rest|
    ensures |RestWords(command, rest, start)| == |rest|
            && RestWords(command, rest, start)[k] == Word(command(rest[k]), start + k)
  {
    var before := rest[..|rest| - 1];
    if k < |before| {
      RestWordAt(command, before, start, k);
    } else if before != [] {
      RestWordAt(command, before, start, 0);
    }
  }

  lemma RestIsInPlace(command: Normalizer, arguments: seq<string>, start: nat)
    requires start <= |arguments|
    ensures InPlace(command, arguments, RestWords(command, arguments[start..], start))
    ensures forall k :: 0 <= k < |RestWords(command, arguments[start..], start)|
                        ==> RestWords(command, arguments[start..], start)[k].index >= start
  {
    var rest := arguments[start..];
    var words := RestWords(command, rest, start);
    if rest != [] { RestWordAt(command, rest, start, 0); }
    forall k | 0 <= k < |words| ensures words[k] == Word(command(arguments[start + k]), start + k) {
      RestWordAt(command, rest, start, k);
    }
  }

  lemma InPlaceOfBoth(command: Normalizer, arguments: seq<string>, words: seq<Word>, more: seq<Word>, start: nat)
    requires InPlace(command, arguments, words) && InPlace(command, arguments, more)
    requires words == [] || words[|words| - 1].index < start
    requires forall k :: 0 <= k < |more| ==> more[k].index >= start
    ensures InPlace(command, arguments, words + more)
  {
    var both := words + more;
    forall j, k | 0 <= j < k < |both| ensures both[j].index < both[k].index {
      if j < |words| <= k {
        assert words[j].index <= words[|words| - 1].index;
      }
    }
  }

  lemma ReadingIsInPlace(command: Normalizer, reading: Reading)
    ensures InPlace(command, WrittenReading(reading), AllWords(command, reading))
  {
    var arguments := WrittenReading(reading);
    WordsAreInPlace(command, reading.items, arguments);
    var words := Words(command, reading.items);
    if reading.rest.Some? {
      var start := |AllWritten(reading.items)| + 1;
      assert arguments[start..] == reading.rest.value;
      RestIsInPlace(command, arguments, start);
      InPlaceOfBoth(command, arguments, words, RestWords(command, reading.rest.value, start), start);
    } else {
      assert words + [] == words;
    }
  }

  /** Every positional that is reported stands where it is said to, in the order of the arguments. */
  lemma PositionalsAreInPlace(table: OptionTable, command: Normalizer, arguments: seq<string>)
    requires IsTable(table)
    ensures InPlace(command, arguments, Meaning(table, command, arguments).positionals)
  {
    if Read(table, arguments).Some? {
      ReadIsReading(table, arguments);
      ReadingIsInPlace(command, Read(table, arguments).value);
    }
  }

  // ---------------------------------------------------------------- power states cannot be hidden

  predicate NoPositionals(items: seq<Item>) {
    items == [] || (!items[|items| - 1].Positional? && NoPositionals(items[..|items| - 1]))
  }

  lemma {:induction false} NoPositionalsNoWords(command: Normalizer, items: seq<Item>)
    requires NoPositionals(items)
    ensures Words(command, items) == []
  {
    if items != [] { NoPositionalsNoWords(command, items[..|items| - 1]); }
  }

  lemma {:induction false} WordsStart(command: Normalizer, items: seq<Item>, more: seq<Item>)
    ensures Words(command, items) <= Words(command, items + more)
  {
    if more == [] {
      assert items + more == items;
    } else {
      WordsStart(command, items, more[..|more| - 1]);
      assert (items + more)[..|items + more| - 1] == items + more[..|more| - 1];
    }
  }

  /** The first positional after options, whatever follows. */
  lemma FirstPositional(table: OptionTable, command: Normalizer, items: seq<Item>, verb: string, more: seq<string>)
    requires IsTable(table) && AreItems(table, items) && NoPositionals(items) && IsPositional(verb)
    ensures var parsed := Meaning(table, command, AllWritten(items) + [verb] + more);
      parsed.valid ==> |parsed.positionals| > 0 && parsed.positionals[0] == Word(command(verb), |AllWritten(items)|)
  {
    var arguments := AllWritten(items) + [verb] + more;
    var item := Positional(verb);
    assert arguments == AllWritten(items) + (Written(item) + more);
    ItemsAreRead(table, items, Written(item) + more);
    FirstIsRead(table, item, more);
    BehindBoth(items, [item], Read(table, more));
    if Read(table, arguments).Some? {
      var tail := Read(table, more).value;
      FirstWordOf(command, items, verb, tail.items);
      assert Read(table, arguments).value.items == items + [item] + tail.items;
    }
  }

  lemma FirstWordOf(command: Normalizer, items: seq<Item>, verb: string, more: seq<Item>)
    requires NoPositionals(items)
    ensures [Word(command(verb), |AllWritten(items)|)] <= Words(command, items + [Positional(verb)] + more)
  {
    NoPositionalsNoWords(command, items);
    OneMoreItem(command, items, Positional(verb));
    WordsStart(command, items + [Positional(verb)], more);
  }

  /** A power-state verb as the first positional is reported whatever options with whatever values precede it, and
      whatever follows it, readable or not. */
  lemma LeadingPowerVerbIsReported(table: OptionTable, command: Normalizer, items: seq<Item>, verb: string,
                                   more: seq<string>)
    requires IsTable(table) && AreItems(table, items) && NoPositionals(items) && IsPositional(verb)
    requires IsPowerVerb(command(verb))
    ensures Reboot in Capabilities(table, command, AllWritten(items) + [verb] + more)
  {
    FirstPositional(table, command, items, verb, more);
    var arguments := AllWritten(items) + [verb] + more;
    var parsed := Meaning(table, command, arguments);
    if parsed.valid { VerbDecides(command, arguments, parsed); }
  }

  lemma {:induction false} FirstRestWord(command: Normalizer, rest: seq<string>, start: nat)
    requires rest != []
    ensures [Word(command(rest[0]), start)] <= RestWords(command, rest, start)
  {
    if |rest| > 1 { FirstRestWord(command, rest[..|rest| - 1], start); }
  }

  /** So is one behind `--`, which may even start with a dash. */
  lemma PowerVerbBehindEndIsReported(table: OptionTable, command: Normalizer, items: seq<Item>, verb: string,
                                     more: seq<string>)
    requires IsTable(table) && AreItems(table, items) && NoPositionals(items)
    requires IsPowerVerb(command(verb))
    ensures Capabilities(table, command, AllWritten(items) + ["--", verb] + more) == {Reboot}
  {
    var rest := [verb] + more;
    var reading := Reading(items, Some(rest));
    assert AllWritten(items) + ["--", verb] + more == WrittenReading(reading);
    ParseUndoesWritten(table, command, reading);
    NoPositionalsNoWords(command, items);
    FirstRestWord(command, rest, |AllWritten(items)| + 1);
    VerbDecides(command, WrittenReading(reading), Parsed(true, AllWords(command, reading), OptionsOf(items)));
  }

  lemma VerbDecides(command: Normalizer, arguments: seq<string>, parsed: Parsed)
    requires parsed.valid && parsed.positionals != [] && IsPowerVerb(parsed.positionals[0].command)
    ensures CapabilitiesOf(command, arguments, parsed) == {Reboot}
  {
  }

  lemma {:induction false} TargetIsNamed(command: Normalizer, arguments: seq<string>, words: seq<Word>, from: nat,
                                         at: nat)
    requires from <= at < |words| && words[at].index < |arguments|
    requires IsPowerTarget(command(arguments[words[at].index]))
    ensures NamesPowerTarget(command, arguments, words, from)
    decreases at - from
  {
    if from < at { TargetIsNamed(command, arguments, words, from + 1, at); }
  }

  /** Starting or isolating a power-state unit is reported wherever the unit stands, between whatever options; enabling
      one is with `--now` anywhere. */
  lemma PowerTargetIsReported(table: OptionTable, command: Normalizer, arguments: seq<string>, reading: Reading,
                              at: nat)
    requires IsTable(table) && IsReading(table, reading, arguments)
    requires 0 < at < |AllWords(command, reading)| && IsPowerTarget(AllWords(command, reading)[at].command)
    requires var operation := AllWords(command, reading)[0].command;
      IsUnitOperation(operation) || (IsEnableOperation(operation) && "--now" in OptionsOf(reading.items))
    ensures Reboot in Capabilities(table, command, arguments)
  {
    ReadingIsUnique(table, arguments, reading);
    PositionalsAreInPlace(table, command, arguments);
    TargetIsNamed(command, arguments, AllWords(command, reading), 1, at);
  }

  // ---------------------------------------------------------------- what is reported, exactly

  /** The words that change the power state of the machine. */
  predicate ChangesPower(verb: string) {
    || verb == "emergency" || verb == "halt" || verb == "kexec" || verb == "poweroff" || verb == "reboot"
    || verb == "rescue" || verb == "soft-reboot"
  }

  /** The words that start a unit at once. */
  predicate StartsUnits(verb: string) {
    || verb == "isolate" || verb == "reload-or-restart" || verb == "restart" || verb == "start"
    || verb == "try-reload-or-restart" || verb == "try-restart"
  }

  predicate EnablesUnits(verb: string) {
    verb == "enable" || verb == "preset" || verb == "reenable"
  }

  /** The target of a word that changes the power state, or an alias of one. */
  predicate IsPowerUnit(unit: string) {
    || unit == "emergency.target" || unit == "halt.target" || unit == "kexec.target" || unit == "poweroff.target"
    || unit == "reboot.target" || unit == "rescue.target" || unit == "soft-reboot.target"
    || unit == "ctrl-alt-del.target" || unit == "shutdown.target" || unit == "sigpwr.target"
    || unit == "runlevel0.target" || unit == "runlevel1.target" || unit == "runlevel6.target"
  }

  lemma PowerTargetsAreTold(unit: string)
    ensures IsPowerTarget(unit) <==> IsPowerUnit(unit)
  {
  }

  /** A positional behind the first names a power state. */
  ghost predicate HasPowerUnit(words: seq<Word>) {
    exists k :: 0 < k < |words| && IsPowerUnit(words[k].command)
  }

  lemma {:induction false} NamedIsPowerUnit(command: Normalizer, arguments: seq<string>, words: seq<Word>, from: nat)
    requires InPlace(command, arguments, words) && 0 < from
    ensures NamesPowerTarget(command, arguments, words, from)
      <==> exists k :: from <= k < |words| && IsPowerUnit(words[k].command)
    decreases |words| - from
  {
    if from < |words| {
      PowerTargetsAreTold(words[from].command);
      NamedIsPowerUnit(command, arguments, words, from + 1);
      assert words[from].command == command(arguments[words[from].index]);
    }
  }

  lemma VerbsAreTold(verb: string)
    ensures IsPowerVerb(verb) <==> ChangesPower(verb)
    ensures IsUnitOperation(verb) <==> StartsUnits(verb)
    ensures IsEnableOperation(verb) <==> EnablesUnits(verb)
  {
  }

  /** What is asked for, for every command line. One that cannot be read is taken to ask for both. Otherwise a reboot is
      asked for exactly by a word that changes the power state, and by one that starts units, or enables them with
      `--now`, and names a power state behind it; and a restart exactly by `restart` where there is no reboot. */
  lemma CapabilitiesAreExact(table: OptionTable, command: Normalizer, arguments: seq<string>)
    requires IsTable(table)
    ensures var reading := Read(table, arguments); var asked := Capabilities(table, command, arguments);
      if reading.None? then asked == {Restart, Reboot}
      else if AllWords(command, reading.value) == [] then asked == {}
      else
        var words := AllWords(command, reading.value);
        var verb := words[0].command;
        && (Reboot in asked
            <==> ChangesPower(verb)
                 || (HasPowerUnit(words)
                     && (StartsUnits(verb) || (EnablesUnits(verb) && "--now" in OptionsOf(reading.value.items)))))
        && (Restart in asked <==> verb == "restart" && !HasPowerUnit(words))
  {
    PositionalsAreInPlace(table, command, arguments);
    if Read(table, arguments).Some? {
      var words := AllWords(command, Read(table, arguments).value);
      NamedIsPowerUnit(command, arguments, words, 1);
      if words != [] { VerbsAreTold(words[0].command); }
    }
  }

  /** An option's value is never taken for a command: with options only, nothing is reported. */
  lemma OptionValuesAreNoCommands(table: OptionTable, command: Normalizer, items: seq<Item>)
    requires IsTable(table) && AreItems(table, items) && NoPositionals(items)
    ensures Capabilities(table, command, AllWritten(items)) == {}
  {
    ReadUndoesWritten(table, Reading(items, None));
    assert AllWritten(items) + [] == AllWritten(items);
    NoPositionalsNoWords(command, items);
  }
}
