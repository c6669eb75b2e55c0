/** The append-local file format of `src/domain/text-composition.ts`: a marked source block before an unmarked local
    suffix. */
module TextComposition {
  import opened Options
  import opened Texts

  const SOURCE_TEXT_START := "<!-- canonfig:source:start -->"
  const SOURCE_TEXT_END := "<!-- canonfig:source:end -->"

  datatype Composition = Unmanaged(local: string) | Managed(source: string, local: string)

  datatype Issue = NulCharacter | ReservedMarker

  datatype ParseError = TargetHasNul | MarkersMisplaced | MarkersRepeated

  predicate HasNul(text: string) {
    '\0' in text
  }

  predicate HasMarker(text: string) {
    Includes(text, SOURCE_TEXT_START) || Includes(text, SOURCE_TEXT_END)
  }

  /** Text both owners may write: no NUL and no marker. */
  predicate IsClean(text: string) {
    !HasNul(text) && !HasMarker(text)
  }

  // ---------------------------------------------------------------- the format

  function SourceTextIssue(text: string): Option<Issue> {
    if HasNul(text) then Some(NulCharacter) else if HasMarker(text) then Some(ReservedMarker) else None
  }

  function Opening(): string { SOURCE_TEXT_START + "\n" }

  function Closing(): string { "\n" + SOURCE_TEXT_END + "\n\n" }

  function Layout(source: string, local: string): string {
    Opening() + source + Closing() + local
  }

  function Parse(text: string): Result<Composition, ParseError> {
    if HasNul(text) then Err(TargetHasNul)
    else if !HasMarker(text) then Ok(Unmanaged(text))
    else
      var opening, closing := Opening(), Closing();
      var end := if |opening| <= |text| then IndexOf(text, closing, |opening|) else -1;
      if !(opening <= text) || end < 0 then Err(MarkersMisplaced)
      else
        var source, local := text[|opening|..end], text[end + |closing|..];
        if HasMarker(source) || HasMarker(local) then Err(MarkersRepeated) else Ok(Managed(source, local))
  }

  function Compose(source: string, current: Option<Composition>): string {
    var local := if current.None? || (current.value.Unmanaged? && current.value.local == source) then ""
                 else current.value.local;
    Layout(source, local)
  }

  // ---------------------------------------------------------------- parsing undoes composing

  lemma MarkersAreOneLine()
    ensures '\n' !in SOURCE_TEXT_END && '\0' !in SOURCE_TEXT_START && '\0' !in SOURCE_TEXT_END
            && SOURCE_TEXT_END != "" && SOURCE_TEXT_START != ""
  {
  }

  /** The closing line cannot be found before the source ends: an earlier match would have to hold the whole marker
      or a newline inside it. */
  lemma ClosingIsFoundBehind(opening: string, source: string, marker: string, local: string, place: nat)
    requires '\n' !in marker && |opening| <= place < |opening| + |source|
    requires !Contains(source, marker)
    ensures !At(opening + source + ("\n" + marker + "\n\n") + local, place, "\n" + marker + "\n\n")
  {
    var closing := "\n" + marker + "\n\n";
    var text := opening + source + closing + local;
    var left := |opening| + |source| - place;
    if left <= |marker| {
      assert text[place + left] == closing[0] == '\n';
      assert closing[left] == marker[left - 1];
      DifferentThere(text, place, closing, left);
    } else if At(text, place, closing) {
      assert text == opening + source + (closing + local);
      assert closing[1..1 + |marker|] == marker;
      SliceOfSlice(text, place, place + |closing|, 1, 1 + |marker|);
      MarkerInSource(opening, source, closing + local, marker, place, place - |opening| + 1);
    }
  }

  lemma SliceOfSlice(text: string, a: nat, b: nat, c: nat, d: nat)
    requires a <= b <= |text| && c <= d <= b - a
    ensures text[a..b][c..d] == text[a + c..a + d]
  {
    var left, right := text[a..b][c..d], text[a + c..a + d];
    forall k | 0 <= k < d - c ensures left[k] == right[k] {
      assert left[k] == text[a..b][c + k] == text[a + (c + k)];
    }
  }

  lemma DifferentThere(text: string, place: nat, pattern: string, k: nat)
    requires k < |pattern| && place + k < |text| && text[place + k] != pattern[k]
    ensures !At(text, place, pattern)
  {
    if place + |pattern| <= |text| { assert text[place..place + |pattern|][k] == text[place + k]; }
  }

  lemma MarkerInSource(opening: string, source: string, rest: string, marker: string, place: nat, start: nat)
    requires start == place - |opening| + 1 && |opening| <= place && start + |marker| <= |source|
    requires var text := opening + source + rest; place + 1 + |marker| <= |text|
                                                  && text[place + 1..place + 1 + |marker|] == marker
    ensures Contains(source, marker)
  {
    var text := opening + source + rest;
    assert text[place + 1..place + 1 + |marker|] == source[start..start + |marker|];
    assert At(source, start, marker);
  }

  lemma LayoutParts(source: string, local: string)
    ensures var text := Layout(source, local); var end := |Opening()| + |source|;
      && Opening() <= text && text[|Opening()|..end] == source && At(text, end, Closing())
      && text[end + |Closing()|..] == local
      && Includes(text, SOURCE_TEXT_START)
  {
    var text := Layout(source, local);
    assert text[..|Opening()|] == Opening();
    assert Opening()[..|SOURCE_TEXT_START|] == SOURCE_TEXT_START;
    assert text[0..|SOURCE_TEXT_START|] == SOURCE_TEXT_START;
    assert At(text, 0, SOURCE_TEXT_START);
  }

  lemma LayoutNul(source: string, local: string)
    ensures HasNul(Layout(source, local)) <==> HasNul(source) || HasNul(local)
  {
    MarkersAreOneLine();
    assert '\0' !in Opening() && '\0' !in Closing();
  }

  /** A composed file is read back as the two texts it was made of exactly when neither holds a marker or a NUL. */
  lemma ParseUndoesLayout(source: string, local: string)
    ensures Parse(Layout(source, local)) == Ok(Managed(source, local)) <==> IsClean(source) && IsClean(local)
  {
    var text := Layout(source, local);
    LayoutParts(source, local);
    LayoutNul(source, local);
    if IsClean(source) && IsClean(local) {
      MarkersAreOneLine();
      forall place | |Opening()| <= place < |Opening()| + |source| ensures !At(text, place, Closing()) {
        ClosingIsFoundBehind(Opening(), source, SOURCE_TEXT_END, local, place);
      }
      assert IndexOf(text, Closing(), |Opening()|) == |Opening()| + |source|;
    }
  }

  lemma CutAtClosing(text: string, opening: string, closing: string, end: nat)
    requires opening <= text && |opening| <= end && At(text, end, closing)
    ensures text == opening + text[|opening|..end] + closing + text[end + |closing|..]
  {
    assert text == text[..|opening|] + text[|opening|..end] + text[end..end + |closing|] + text[end + |closing|..];
  }

  lemma ManagedText(text: string)
    requires Parse(text).Ok? && Parse(text).value.Managed?
    ensures var parsed := Parse(text).value; text == Layout(parsed.source, parsed.local) && IsClean(parsed.source)
                                             && IsClean(parsed.local)
  {
    var end := IndexOf(text, Closing(), |Opening()|);
    CutAtClosing(text, Opening(), Closing(), end);
    LayoutNul(Parse(text).value.source, Parse(text).value.local);
  }

  /** What is read as managed is exactly the layout of clean texts, and composing it again gives the same file. */
  lemma ManagedIsLayout(text: string)
    ensures Parse(text).Ok? && Parse(text).value.Managed?
      <==> exists source, local :: text == Layout(source, local) && IsClean(source) && IsClean(local)
    ensures Parse(text).Ok? && Parse(text).value.Managed?
      ==> Compose(Parse(text).value.source, Some(Parse(text).value)) == text
    ensures Parse(text) == Ok(Unmanaged(text)) <==> IsClean(text)
  {
    if Parse(text).Ok? && Parse(text).value.Managed? { ManagedText(text); }
    if source, local :| text == Layout(source, local) && IsClean(source) && IsClean(local) {
      ParseUndoesLayout(source, local);
    }
  }

  // ---------------------------------------------------------------- runs

  /** Synchronization writes a new source; the user edits below the block. */
  datatype Event = SourceUpdate(source: string) | LocalEdit(local: string)

  /** Composing into what is there, or nothing, as an append-local write does; a damaged file is left alone. */
  function Update(file: Option<string>, source: string): Result<string, ParseError> {
    if file.None? then Ok(Compose(source, None))
    else match Parse(file.value)
      case Err(error) => Err(error)
      case Ok(current) => Ok(Compose(source, Some(current)))
  }

  function Edit(file: string, local: string): string {
    if Parse(file).Ok? && Parse(file).value.Managed? then Layout(Parse(file).value.source, local) else local
  }

  function Step(file: string, event: Event): string {
    match event
    case SourceUpdate(source) => (match Update(Some(file), source) case Ok(next) => next case Err(_) => file)
    case LocalEdit(local) => Edit(file, local)
  }

  function Run(file: string, events: seq<Event>): string {
    if events == [] then file else Step(Run(file, events[..|events| - 1]), events[|events| - 1])
  }

  predicate IsAllowed(event: Event) {
    match event
    case SourceUpdate(source) => SourceTextIssue(source).None?
    case LocalEdit(local) => IsClean(local)
  }

  function LatestSource(before: string, events: seq<Event>): string {
    if events == [] then before
    else var last := events[|events| - 1];
         if last.SourceUpdate? then last.source else LatestSource(before, events[..|events| - 1])
  }

  function LatestLocal(before: string, events: seq<Event>): string {
    if events == [] then before
    else var last := events[|events| - 1];
         if last.LocalEdit? then last.local else LatestLocal(before, events[..|events| - 1])
  }

  /** After any run on a managed file, it is still managed and holds the latest source and the latest local text. */
  lemma {:induction false} RunKeepsBoth(file: string, source: string, local: string, events: seq<Event>)
    requires Parse(file) == Ok(Managed(source, local))
    requires forall k :: 0 <= k < |events| ==> IsAllowed(events[k])
    ensures Parse(Run(file, events)) == Ok(Managed(LatestSource(source, events), LatestLocal(local, events)))
  {
    if events != [] {
      var shorter, last := events[..|events| - 1], events[|events| - 1];
      RunKeepsBoth(file, source, local, shorter);
      assert IsAllowed(last);
      var before := Run(file, shorter);
      ManagedText(before);
      match last
      case SourceUpdate(next) => ParseUndoesLayout(next, LatestLocal(local, shorter));
      case LocalEdit(next) => ParseUndoesLayout(LatestSource(source, shorter), next);
    }
  }

  /** The first write keeps the whole file as local text, unless it already is the source or is not there. */
  lemma FirstWriteKeepsTheFile(file: Option<string>, source: string)
    requires SourceTextIssue(source).None? && (file.Some? ==> IsClean(file.value))
    ensures Update(file, source).Ok?
    ensures Parse(Update(file, source).value) == Ok(Managed(source, if file.None? || file.value == source then ""
                                                                    else file.value))
  {
    NothingIsClean();
    var local := if file.None? || file.value == source then "" else file.value;
    ParseUndoesLayout(source, local);
  }

  lemma NothingIsClean()
    ensures IsClean("")
  {
    MarkersAreOneLine();
  }

  /** An update is refused exactly when the file is damaged, and repeating one changes nothing. */
  lemma UpdateTwice(file: Option<string>, source: string)
    requires SourceTextIssue(source).None?
    ensures Update(file, source).Err? <==> file.Some? && Parse(file.value).Err?
    ensures Update(file, source).Ok? ==> Update(Some(Update(file, source).value), source) == Update(file, source)
  {
    if Update(file, source).Ok? {
      if file.Some? && Parse(file.value).value.Managed? {
        ManagedText(file.value);
        ParseUndoesLayout(source, Parse(file.value).value.local);
      } else {
        FirstWriteKeepsTheFile(file, source);
      }
    }
  }
}
