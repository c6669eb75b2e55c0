/** Normalized target paths, `normalizedTargetPath` and the two target checks of `src/domain/profile.ts`.
    Letters outside ASCII have no case here, and Unicode normalization is the identity. */
module TargetPaths {
  import opened Options
  import opened Texts

  datatype Platform = Linux | MacOS | Windows

  // ---------------------------------------------------------------- segments

  /** `text.split("/")`. */
  function Split(text: string): (parts: seq<string>)
    ensures parts != []
  {
    if text == "" then [""]
    else var rest := Split(text[1..]);
         if text[0] == '/' then [""] + rest else [[text[0]] + rest[0]] + rest[1..]
  }

  lemma {:induction false} JoinUndoesSplit(text: string)
    ensures Join(Split(text), "/") == text
  {
    if text != "" {
      var rest := Split(text[1..]);
      JoinUndoesSplit(text[1..]);
      if text[0] == '/' {
        assert Split(text)[1..] == rest;
      } else {
        assert Split(text)[1..] == rest[1..];
      }
      assert text == [text[0]] + text[1..];
    }
  }

  lemma {:induction false} SplitAtSlash(left: string, right: string)
    ensures Split(left + "/" + right) == Split(left) + Split(right)
  {
    var whole := left + "/" + right;
    if left == "" {
      assert whole[1..] == right;
    } else {
      assert whole[1..] == left[1..] + "/" + right;
      SplitAtSlash(left[1..], right);
    }
  }

  lemma {:induction false} NoSlashIsOnePart(text: string)
    requires '/' !in text
    ensures Split(text) == [text]
  {
    if text != "" {
      NoSlashIsOnePart(text[1..]);
      assert text == [text[0]] + text[1..];
    }
  }

  predicate Slashless(parts: seq<string>) {
    parts == [] || ('/' !in parts[0] && Slashless(parts[1..]))
  }

  lemma {:induction false} SplitUndoesJoin(parts: seq<string>)
    requires parts != [] && Slashless(parts)
    ensures Split(Join(parts, "/")) == parts
  {
    NoSlashIsOnePart(parts[0]);
    if |parts| > 1 {
      SplitUndoesJoin(parts[1..]);
      SplitAtSlash(parts[0], Join(parts[1..], "/"));
    }
  }

  lemma {:induction false} JoinOfBoth(left: seq<string>, right: seq<string>)
    requires left != [] && right != []
    ensures Join(left + right, "/") == Join(left, "/") + "/" + Join(right, "/")
  {
    if |left| == 1 {
      assert (left + right)[1..] == right;
    } else {
      assert (left + right)[1..] == left[1..] + right;
      JoinOfBoth(left[1..], right);
      var one, other := left[0] + "/", Join(left[1..], "/");
      assert one + (other + "/" + Join(right, "/")) == one + other + "/" + Join(right, "/");
    }
  }

  /** `text.startsWith(base + "/")` says that the segments of `base` come first and others follow. */
  lemma BelowIsLonger(base: string, text: string)
    ensures base + "/" <= text <==> Split(base) < Split(text)
  {
    if base + "/" <= text {
      var rest := text[|base| + 1..];
      assert text == base + "/" + rest;
      SplitAtSlash(base, rest);
    }
    if Split(base) < Split(text) {
      var rest := Split(text)[|Split(base)|..];
      assert Split(text) == Split(base) + rest;
      JoinUndoesSplit(base);
      JoinUndoesSplit(text);
      JoinOfBoth(Split(base), rest);
    }
  }

  predicate Below(path: string, ancestor: string) {
    ancestor + "/" <= path
  }

  /** The test of `validateResourcePathConflicts`. */
  predicate Overlaps(left: string, right: string) {
    left == right || Below(left, right) || Below(right, left)
  }

  /** On all texts, two paths overlap exactly when the segments of one start the segments of the other. */
  lemma OverlapIsSegmentPrefix(left: string, right: string)
    ensures Overlaps(left, right) <==> Split(left) <= Split(right) || Split(right) <= Split(left)
    ensures Overlaps(left, right) <==> Overlaps(right, left)
    ensures !(Below(left, right) && Below(right, left)) && !Below(left, left)
  {
    BelowIsLonger(left, right);
    BelowIsLonger(right, left);
    BelowIsLonger(left, left);
    if Split(left) == Split(right) {
      JoinUndoesSplit(left);
      JoinUndoesSplit(right);
    }
  }

  // ---------------------------------------------------------------- letter case

  function LowerAll(parts: seq<string>): seq<string> {
    if parts == [] then [] else [Lower(parts[0])] + LowerAll(parts[1..])
  }

  lemma {:induction false} SplitOfLower(text: string)
    ensures Split(Lower(text)) == LowerAll(Split(text))
  {
    if text != "" {
      SplitOfLower(text[1..]);
      assert Lower(text)[1..] == Lower(text[1..]);
      var rest := Split(text[1..]);
      assert LowerAll(rest) == [Lower(rest[0])] + LowerAll(rest[1..]);
      if text[0] == '/' {
        assert LowerAll([""] + rest) == [""] + LowerAll(rest) by { assert ([""] + rest)[1..] == rest; }
      } else {
        var first := [text[0]] + rest[0];
        assert first[1..] == rest[0];
        assert LowerAll([first] + rest[1..]) == [Lower(first)]
               + LowerAll(rest[1..]) by { assert ([first] + rest[1..])[1..] == rest[1..]; }
      }
    }
  }

  lemma {:induction false} LowerAllOfBoth(left: seq<string>, right: seq<string>)
    ensures LowerAll(left + right) == LowerAll(left) + LowerAll(right)
  {
    if left == [] {
      assert left + right == right;
    } else {
      assert (left + right)[1..] == left[1..] + right;
      LowerAllOfBoth(left[1..], right);
    }
  }

  // ---------------------------------------------------------------- locations

  function SlashSeparated(value: string): (slashed: string)
    ensures |slashed| == |value|
  {
    if value == "" then "" else [if value[0] == '\\' then '/' else value[0]] + SlashSeparated(value[1..])
  }

  datatype Anchor = Relative | Rooted | Drive(letter: char)

  /** A drive letter counts when a slash or the end follows its colon. */
  function AnchorOf(slashed: string): (anchor: Anchor)
    ensures anchor.Drive? ==> |slashed| >= 2 && anchor.letter != '/'
  {
    if |slashed| >= 2 && IsLetter(slashed[0]) && slashed[1] == ':' && (|slashed| == 2 || slashed[2] == '/')
    then Drive(LowerOf(slashed[0]))
    else if slashed != "" && slashed[0] == '/' then Rooted
    else Relative
  }

  function Body(slashed: string): string {
    if AnchorOf(slashed).Drive? then slashed[2..] else slashed
  }

  predicate IsDropped(segment: string) {
    segment == "" || segment == "."
  }

  /** The segments that mean something. */
  function Kept(segments: seq<string>): seq<string> {
    if segments == [] then []
    else if IsDropped(segments[0]) then Kept(segments[1..])
    else [segments[0]] + Kept(segments[1..])
  }

  lemma {:induction false} KeptOfBoth(left: seq<string>, right: seq<string>)
    ensures Kept(left + right) == Kept(left) + Kept(right)
  {
    if left == [] {
      assert left + right == right;
    } else {
      assert (left + right)[1..] == left[1..] + right;
      KeptOfBoth(left[1..], right);
    }
  }

  /** What a written path names: where it starts, and the way down from there. */
  function Segments(value: string): seq<string> {
    Kept(Split(Body(SlashSeparated(value))))
  }

  function Start(value: string): Anchor {
    AnchorOf(SlashSeparated(value))
  }

  function StartParts(anchor: Anchor): seq<string> {
    match anchor
    case Relative => []
    case Rooted => [""]
    case Drive(letter) => [[letter, ':']]
  }

  /** The segments of a normalized path. A path without segments ends in a mark of its own, so it does not start any
      other. */
  function Location(anchor: Anchor, segments: seq<string>): (parts: seq<string>)
    ensures parts != []
  {
    StartParts(anchor) + (if segments != [] then segments else if anchor.Relative? then ["."] else [""])
  }

  function Folded(parts: seq<string>, platform: Platform): seq<string> {
    if platform.Windows? then LowerAll(parts) else parts
  }

  lemma {:induction false} SplitIsSlashless(text: string)
    ensures Slashless(Split(text))
  {
    if text != "" { SplitIsSlashless(text[1..]); }
  }

  lemma {:induction false} KeptIsSlashless(segments: seq<string>)
    requires Slashless(segments)
    ensures Slashless(Kept(segments))
  {
    if segments != [] { KeptIsSlashless(segments[1..]); }
  }

  lemma RenderedLocation(prefix: string, segments: seq<string>)
    requires Slashless(segments) && segments != [] && '/' !in prefix
    ensures Split(prefix + "/" + Join(segments, "/")) == [prefix] + segments
  {
    SplitUndoesJoin(segments);
    SplitAtSlash(prefix, Join(segments, "/"));
    NoSlashIsOnePart(prefix);
  }

  function WrittenPath(anchor: Anchor, segments: seq<string>): string {
    var normalized := Join(segments, "/");
    match anchor
    case Relative => if segments == [] then "." else normalized
    case Rooted => if segments == [] then "/" else "/" + normalized
    case Drive(letter) => if segments == [] then [letter, ':'] + "/" else [letter, ':'] + "/" + normalized
  }

  lemma WrittenIsLocation(anchor: Anchor, segments: seq<string>)
    requires Slashless(segments) && (anchor.Drive? ==> anchor.letter != '/')
    ensures Split(WrittenPath(anchor, segments)) == Location(anchor, segments)
  {
    match anchor
    case Relative =>
      if segments == [] { NoSlashIsOnePart("."); } else { SplitUndoesJoin(segments); }
    case Rooted =>
      if segments == [] {
        SplitAtSlash("", "");
        assert "" + "/" + "" == "/";
      } else {
        RenderedLocation("", segments);
        assert "" + "/" == "/";
      }
    case Drive(letter) =>
      if segments == [] {
        SplitAtSlash([letter, ':'], "");
        NoSlashIsOnePart([letter, ':']);
        assert [letter, ':'] + "/" + "" == [letter, ':'] + "/";
      } else {
        RenderedLocation([letter, ':'], segments);
      }
  }

  function NormalizedPath(value: string, platform: Platform): string {
    var path := WrittenPath(Start(value), Segments(value));
    if platform.Windows? then Lower(path) else path
  }

  /** The normalized path, read by its segments, is the location that was written. */
  lemma NormalizedPathIsLocation(value: string, platform: Platform)
    ensures Split(NormalizedPath(value, platform)) == Folded(Location(Start(value), Segments(value)), platform)
  {
    SplitIsSlashless(Body(SlashSeparated(value)));
    KeptIsSlashless(Split(Body(SlashSeparated(value))));
    WrittenIsLocation(Start(value), Segments(value));
    SplitOfLower(WrittenPath(Start(value), Segments(value)));
  }

  method NormalizedTargetPath(value: string, platform: Platform) returns (path: string)
    ensures path == NormalizedPath(value, platform)
    ensures Split(path) == Folded(Location(Start(value), Segments(value)), platform)
  {
    var slashed := SlashSeparated(value);
    var prefix := match AnchorOf(slashed) case Relative => "" case Rooted => "/" case Drive(letter) => [letter, ':'];
    var parts := Split(Body(slashed));
    var segments: seq<string> := [];
    for k := 0 to |parts|
      invariant segments == Kept(parts[..k])
    {
      assert parts[..k + 1] == parts[..k] + [parts[k]];
      KeptOfBoth(parts[..k], [parts[k]]);
      if parts[k] != "" && parts[k] != "." { segments := segments + [parts[k]]; }
    }
    assert parts[..|parts|] == parts;
    var normalized := Join(segments, "/");
    if prefix == "/" {
      path := if segments == [] then "/" else "/" + normalized;
    } else if prefix != "" {
      path := if segments == [] then prefix + "/" else prefix + "/" + normalized;
    } else {
      path := if segments == [] then "." else normalized;
    }
    if platform.Windows? { path := Lower(path); }
    NormalizedPathIsLocation(value, platform);
  }

  // ---------------------------------------------------------------- overlap of written paths

  /** With at least one segment on either side, overlap is what it should be: one location starts the other. */
  lemma OverlapOfWritten(value: string, other: string, platform: Platform)
    requires Segments(value) != [] && Segments(other) != []
    ensures Overlaps(NormalizedPath(value, platform), NormalizedPath(other, platform))
      <==> var one := Folded(StartParts(Start(value)) + Segments(value), platform);
           var two := Folded(StartParts(Start(other)) + Segments(other), platform);
           one <= two || two <= one
  {
    NormalizedPathIsLocation(value, platform);
    NormalizedPathIsLocation(other, platform);
    OverlapIsSegmentPrefix(NormalizedPath(value, platform), NormalizedPath(other, platform));
  }

  predicate NoneDropped(segments: seq<string>) {
    segments == [] || (!IsDropped(segments[0]) && NoneDropped(segments[1..]))
  }

  lemma {:induction false} KeptHasNoneDropped(segments: seq<string>)
    ensures NoneDropped(Kept(segments))
  {
    if segments != [] {
      KeptHasNoneDropped(segments[1..]);
      if !IsDropped(segments[0]) { assert Kept(segments)[1..] == Kept(segments[1..]); }
    }
  }

  lemma LowerKeepsDropped(segment: string)
    ensures IsDropped(Lower(segment)) <==> IsDropped(segment)
    ensures Lower(segment) == "." <==> segment == "."
  {
    if segment != "" {
      assert |Lower(segment)| == 1 + |Lower(segment[1..])|;
      assert segment[1..] == "" <==> Lower(segment[1..]) == "";
      assert Lower(segment)[0] == LowerOf(segment[0]);
      assert segment == [segment[0]] + segment[1..];
    }
  }

  lemma {:induction false} LowerAllAt(parts: seq<string>, k: nat)
    requires k < |parts|
    ensures |LowerAll(parts)| == |parts| && LowerAll(parts)[k] == Lower(parts[k])
  {
    if |parts| > 1 {
      LowerAllAt(parts[1..], if k == 0 then 0 else k - 1);
    }
  }

  lemma {:induction false} NoneDroppedAt(segments: seq<string>, k: nat)
    requires NoneDropped(segments) && k < |segments|
    ensures !IsDropped(segments[k])
  {
    if k > 0 { NoneDroppedAt(segments[1..], k - 1); }
  }

  /** A segment of a folded location, and the mark at the end of one without segments. */
  lemma FoldedAt(anchor: Anchor, segments: seq<string>, platform: Platform, k: nat)
    requires NoneDropped(segments) && k < |Location(anchor, segments)|
    ensures |Folded(Location(anchor, segments), platform)| == |Location(anchor, segments)|
    ensures IsDropped(Folded(Location(anchor, segments), platform)[k])
      <==> (k >= |StartParts(anchor)| && segments == []) || (anchor.Rooted? && k == 0)
    ensures Folded(Location(anchor, segments), platform)[k] == "." <==> anchor.Relative? && segments == []
  {
    var parts := Location(anchor, segments);
    LowerAllAt(parts, k);
    LowerKeepsDropped(parts[k]);
    if segments != [] && k >= |StartParts(anchor)| { NoneDroppedAt(segments, k - |StartParts(anchor)|); }
  }

  /** A path without segments overlaps none with segments, with one exception. */
  lemma OnlyDrivesAreMistaken(value: string, other: string, platform: Platform)
    requires Segments(value) == [] && Segments(other) != []
    ensures Overlaps(NormalizedPath(value, platform), NormalizedPath(other, platform))
      ==> Start(value).Drive? && Start(other).Relative? && |Segments(other)| == 1
  {
    NormalizedPathIsLocation(value, platform);
    NormalizedPathIsLocation(other, platform);
    OverlapIsSegmentPrefix(NormalizedPath(value, platform), NormalizedPath(other, platform));
    KeptHasNoneDropped(Split(Body(SlashSeparated(other))));
    var root, below := Location(Start(value), []), Location(Start(other), Segments(other));
    FoldedAt(Start(value), [], platform, 0);
    FoldedAt(Start(value), [], platform, |root| - 1);
    FoldedAt(Start(other), Segments(other), platform, 0);
    if |below| > 1 { FoldedAt(Start(other), Segments(other), platform, 1); }
  }

  /** The location of a bare drive is the drive and an empty segment. */
  lemma BareDrive(anchor: Anchor, platform: Platform)
    requires anchor.Drive?
    ensures Folded(Location(anchor, []), platform) == Folded(StartParts(anchor), platform) + [""]
    ensures |Folded(StartParts(anchor), platform)| == 1
  {
    LowerAllOfBoth(StartParts(anchor), [""]);
    LowerAllAt(StartParts(anchor), 0);
    assert LowerAll([""]) == [""];
  }

  /** A bare root, a bare drive or the current directory covers nothing below it. Among paths with segments it overlaps
      just one: the relative path whose only segment reads like the drive. */
  lemma RootsCoverNothing(value: string, other: string, platform: Platform)
    requires Segments(value) == [] && Segments(other) != []
    ensures Overlaps(NormalizedPath(value, platform), NormalizedPath(other, platform))
      <==> Start(value).Drive? && Start(other).Relative?
           && Folded(Segments(other), platform) == Folded(StartParts(Start(value)), platform)
  {
    NormalizedPathIsLocation(value, platform);
    NormalizedPathIsLocation(other, platform);
    OverlapIsSegmentPrefix(NormalizedPath(value, platform), NormalizedPath(other, platform));
    OnlyDrivesAreMistaken(value, other, platform);
    if Start(value).Drive? && Start(other).Relative? {
      BareDrive(Start(value), platform);
      LowerAllAt(Segments(other), 0);
      assert Location(Start(other), Segments(other)) == Segments(other);
    }
  }

  // ---------------------------------------------------------------- targets that are refused

  datatype Issue =
    | EmptyTarget | NullByte | ParentTraversal | Glob
    | NotRelative | AlternateSeparator | NotCanonical
    | ReservedCharacter | TrailingDotOrSpace | ReservedName

  predicate HasAnyOf(text: string, chars: string) {
    text != "" && (text[0] in chars || HasAnyOf(text[1..], chars))
  }

  predicate IsBlankText(text: string) {
    text == "" || (IsSpace(text[0]) && IsBlankText(text[1..]))
  }

  function InvalidTargetReason(target: string): Option<Issue> {
    if IsBlankText(target) then Some(EmptyTarget)
    else if '\0' in target then Some(NullByte)
    else if ".." in Split(SlashSeparated(target)) then Some(ParentTraversal)
    else if HasAnyOf(target, "*?[]") then Some(Glob)
    else None
  }

  predicate IsLineEnd(c: char) {
    c == '\n' || c == '\r' || c == '\U{2028}' || c == '\U{2029}'
  }

  /** The text up to its first dot, and what follows that dot. */
  function Stem(segment: string): (stem: string)
    ensures |stem| <= |segment|
  {
    if segment == "" || segment[0] == '.' then "" else [segment[0]] + Stem(segment[1..])
  }

  predicate OneLine(text: string) {
    text == "" || (!IsLineEnd(text[0]) && OneLine(text[1..]))
  }

  /** Device names, with any extension. */
  predicate IsReservedName(segment: string) {
    var stem := Lower(Stem(segment));
    && (stem in {"con", "prn", "aux", "nul"} || (|stem| == 4 && stem[..3] in {"com", "lpt"} && '1' <= stem[3] <= '9'))
    && OneLine(segment[|Stem(segment)|..])
  }

  function WindowsSegmentReason(segments: seq<string>): Option<Issue> {
    if segments == [] then None
    else
      var segment := segments[0];
      if HasAnyOf(segment, "<>:\"|?*") then Some(ReservedCharacter)
      else if segment != "" && segment[|segment| - 1] in ". " then Some(TrailingDotOrSpace)
      else if IsReservedName(segment) then Some(ReservedName)
      else WindowsSegmentReason(segments[1..])
  }

  function InvalidRelativeTargetReason(path: string, platform: Platform): Option<Issue> {
    if IsBlankText(path) then Some(EmptyTarget)
    else if '\0' in path then Some(NullByte)
    else if path[0] == '/' || path[0] == '\\' || (|path| >= 2 && IsLetter(path[0]) && path[1] == ':')
           then Some(NotRelative)
    else if ".." in Split(SlashSeparated(path)) then Some(ParentTraversal)
    else if '\\' in path then Some(AlternateSeparator)
    else if !NoneDropped(Split(path)) then Some(NotCanonical)
    else
      var issue := if platform.Windows? then WindowsSegmentReason(Split(path)) else None;
      if issue.Some? then issue
      else if HasAnyOf(path, "*?[]") then Some(Glob)
      else None
  }

  lemma {:induction false} NoneDroppedIsKept(segments: seq<string>)
    requires NoneDropped(segments)
    ensures Kept(segments) == segments
  {
    if segments != [] { NoneDroppedIsKept(segments[1..]); }
  }

  lemma {:induction false} SlashSeparatedOfBoth(left: string, right: string)
    ensures SlashSeparated(left + right) == SlashSeparated(left) + SlashSeparated(right)
  {
    if left == "" {
      assert left + right == right;
    } else {
      assert (left + right)[1..] == left[1..] + right;
      SlashSeparatedOfBoth(left[1..], right);
    }
  }

  lemma {:induction false} NothingToSeparate(path: string)
    requires '\\' !in path
    ensures SlashSeparated(path) == path
  {
    if path != "" {
      NothingToSeparate(path[1..]);
      assert path == [path[0]] + path[1..];
    }
  }

  /** A managed path that is accepted stays inside: it names the target's location and its own segments below it. */
  lemma EntryStaysInside(target: string, path: string, platform: Platform)
    requires target != "" && InvalidRelativeTargetReason(path, platform).None?
    ensures Start(target + "/" + path) == Start(target)
    ensures Segments(target + "/" + path) == Segments(target) + Split(path)
    ensures NoneDropped(Split(path)) && ".." !in Split(path)
    ensures Segments(target) != []
      ==> Below(NormalizedPath(target + "/" + path, platform), NormalizedPath(target, platform))
  {
    AcceptedIsInside(path, platform);
    EntryIsBelow(target, path);
    if Segments(target) != [] {
      NormalizedPathIsLocation(target, platform);
      NormalizedPathIsLocation(target + "/" + path, platform);
      LongerIsBelow(NormalizedPath(target, platform), NormalizedPath(target + "/" + path, platform),
                    Start(target), Segments(target), Split(path), platform);
    }
  }

  lemma FoldedOfBoth(left: seq<string>, right: seq<string>, platform: Platform)
    requires right != []
    ensures Folded(left, platform) < Folded(left + right, platform)
  {
    LowerAllOfBoth(left, right);
    LowerAllAt(right, 0);
  }

  lemma LongerIsBelow(short: string, long: string, anchor: Anchor, segments: seq<string>, more: seq<string>,
                      platform: Platform)
    requires Split(short) == Folded(Location(anchor, segments), platform) && segments != []
    requires Split(long) == Folded(Location(anchor, segments + more), platform) && more != []
    ensures Below(long, short)
  {
    assert Location(anchor, segments + more) == Location(anchor, segments) + more;
    FoldedOfBoth(Location(anchor, segments), more, platform);
    BelowIsLonger(short, long);
  }

  lemma AcceptedIsInside(path: string, platform: Platform)
    requires InvalidRelativeTargetReason(path, platform).None?
    ensures IsInside(path) && ".." !in Split(path)
  {
    if '\\' !in path { NothingToSeparate(path); }
  }

  predicate IsInside(path: string) {
    path != "" && path[0] != '/' && '\\' !in path && NoneDropped(Split(path))
  }

  lemma EntryIsBelow(target: string, path: string)
    requires target != "" && IsInside(path)
    ensures Start(target + "/" + path) == Start(target)
    ensures Segments(target + "/" + path) == Segments(target) + Split(path)
  {
    NothingToSeparate(path);
    SlashSeparatedOfBoth(target + "/", path);
    SlashSeparatedOfBoth(target, "/");
    var slashed := SlashSeparated(target);
    var whole := slashed + "/" + path;
    assert SlashSeparated(target + "/" + path) == whole;
    NoneDroppedIsKept(Split(path));
    assert AnchorOf(whole) == AnchorOf(slashed);
    assert Body(whole) == Body(slashed) + "/" + path;
    SplitAtSlash(Body(slashed), path);
    KeptOfBoth(Split(Body(slashed)), Split(path));
  }

  // ---------------------------------------------------------------- what a path names, told by its text

  ghost predicate IsSlash(c: char) {
    c == '/' || c == '\\'
  }

  lemma {:induction false} SlashSeparatedAt(value: string)
    ensures forall k :: 0 <= k < |value| ==> SlashSeparated(value)[k] == if IsSlash(value[k]) then '/' else value[k]
  {
    if value != "" { SlashSeparatedAt(value[1..]); }
  }

  /** A path starts at a drive if it is a letter and a colon before a slash or the end, at the root if it starts with a
      slash, and nowhere in particular otherwise; a backslash is a slash. */
  lemma StartIsTold(value: string)
    ensures Start(value).Drive?
      <==> |value| >= 2 && ('a' <= value[0] <= 'z' || 'A' <= value[0] <= 'Z') && value[1] == ':'
           && (|value| == 2 || IsSlash(value[2]))
    ensures Start(value).Drive?
      ==> Start(value).letter == if 'A' <= value[0] <= 'Z' then (value[0] as int + 32) as char else value[0]
    ensures Start(value).Rooted? <==> value != "" && IsSlash(value[0])
  {
    SlashSeparatedAt(value);
  }

  /** The part stands between two slashes, or a slash and an end. */
  ghost predicate PartAt(text: string, place: int, part: string) {
    && 0 <= place && place + |part| <= |text| && text[place..place + |part|] == part
    && (place == 0 || text[place - 1] == '/')
    && (place + |part| == |text| || text[place + |part|] == '/')
  }

  ghost predicate IsPartOf(text: string, part: string) {
    exists place :: PartAt(text, place, part)
  }

  /** The first slash cuts the text in two. */
  lemma {:induction false} FirstSlash(text: string) returns (left: string, right: string)
    requires '/' in text
    ensures text == left + "/" + right && '/' !in left
  {
    if text[0] == '/' {
      left, right := "", text[1..];
    } else {
      left, right := FirstSlash(text[1..]);
      left := [text[0]] + left;
    }
  }

  lemma PartOfOne(text: string, part: string)
    requires '/' !in text && '/' !in part
    ensures IsPartOf(text, part) <==> part == text
  {
    if part == text { assert PartAt(text, 0, part); }
    assert forall k :: 0 <= k < |text| ==> text[k] in text;
  }

  lemma PartInFront(left: string, right: string, part: string, place: int)
    requires '/' !in left && '/' !in part && PartAt(left + "/" + right, place, part) && place <= |left|
    ensures part == left
  {
    var text := left + "/" + right;
    assert forall k :: 0 <= k < |left| ==> text[k] == left[k] && left[k] in left;
    assert text[|left|] == '/' && place == 0;
    assert forall k :: 0 <= k < |part| ==> text[k] == part[k] && part[k] in part;
    assert |part| == |left| && text[..|left|] == left;
  }

  lemma PartOfTwo(left: string, right: string, part: string)
    requires '/' !in left && '/' !in part
    ensures IsPartOf(left + "/" + right, part) <==> part == left || IsPartOf(right, part)
  {
    var text, behind := left + "/" + right, |left| + 1;
    if part == left { assert PartAt(text, 0, part); }
    if place :| PartAt(right, place, part) {
      assert text[behind + place..behind + place + |part|] == right[place..place + |part|];
      assert PartAt(text, behind + place, part);
    }
    if place :| PartAt(text, place, part) {
      if place <= |left| {
        PartInFront(left, right, part, place);
      } else {
        assert text[place..place + |part|] == right[place - behind..place - behind + |part|];
        assert PartAt(right, place - behind, part);
      }
    }
  }

  /** Splitting finds exactly what stands between slashes. */
  lemma {:induction false} SplitMembers(text: string, part: string)
    requires '/' !in part
    ensures part in Split(text) <==> IsPartOf(text, part)
    decreases |text|
  {
    if '/' in text {
      var left, right := FirstSlash(text);
      SplitAtSlash(left, right);
      NoSlashIsOnePart(left);
      SplitMembers(right, part);
      PartOfTwo(left, right, part);
    } else {
      NoSlashIsOnePart(text);
      PartOfOne(text, part);
    }
  }

  /** The places of the segments that mean something, all of them and in order. */
  ghost predicate AreKeptPlaces(segments: seq<string>, places: seq<int>) {
    && (forall j, k :: 0 <= j < k < |places| ==> places[j] < places[k])
    && forall place :: place in places
                       <==> 0 <= place < |segments| && segments[place] != "" && segments[place] != "."
  }

  lemma {:induction false} KeptPlaces(segments: seq<string>) returns (places: seq<int>)
    ensures AreKeptPlaces(segments, places) && |Kept(segments)| == |places|
    ensures forall k :: 0 <= k < |places| ==> 0 <= places[k] < |segments| && Kept(segments)[k] == segments[places[k]]
    decreases |segments|
  {
    if segments == [] { return []; }
    var before, last := segments[..|segments| - 1], |segments| - 1;
    places := KeptPlaces(before);
    assert segments == before + [segments[last]];
    KeptOfBoth(before, [segments[last]]);
    assert Kept([segments[last]]) == if IsDropped(segments[last]) then [] else [segments[last]] by {
      assert [segments[last]][1..] == [];
    }
    forall k | 0 <= k < |places| ensures 0 <= places[k] < last { assert places[k] in places; }
    if !IsDropped(segments[last]) {
      ghost var earlier := places;
      places := places + [last];
      forall place ensures place in places <==> place in earlier || place == last {}
    }
  }

  /** What a path names is, in order, what stands between slashes behind its drive, but for empty parts and dots. */
  lemma SegmentsAreTold(value: string) returns (body: string, places: seq<int>)
    ensures body == SlashSeparated(value)[if Start(value).Drive? then 2 else 0..]
    ensures AreKeptPlaces(Split(body), places) && |Segments(value)| == |places|
    ensures forall k :: 0 <= k < |places|
                        ==> 0 <= places[k] < |Split(body)| && Segments(value)[k] == Split(body)[places[k]]
  {
    body := SlashSeparated(value)[if Start(value).Drive? then 2 else 0..];
    assert body == Body(SlashSeparated(value));
    places := KeptPlaces(Split(body));
  }

  // ---------------------------------------------------------------- what is refused, told by the text

  lemma {:induction false} HasAnyMeans(text: string, chars: string)
    ensures HasAnyOf(text, chars) <==> exists k :: 0 <= k < |text| && text[k] in chars
  {
    if text != "" {
      HasAnyMeans(text[1..], chars);
      if k :| 0 <= k < |text[1..]| && text[1..][k] in chars { assert text[k + 1] in chars; }
      if k :| 0 <= k < |text| && text[k] in chars { assert k > 0 ==> text[1..][k - 1] in chars; }
    }
  }

  lemma {:induction false} BlankTextMeans(text: string)
    ensures IsBlankText(text) <==> IsBlank(text)
  {
    if text != "" {
      BlankTextMeans(text[1..]);
      assert IsBlank(text) ==> forall k :: 0 <= k < |text[1..]| ==> text[1..][k] == text[k + 1];
      assert IsBlank(text[1..]) ==> forall k :: 0 < k < |text| ==> text[k] == text[1..][k - 1];
    }
  }

  /** Two dots stand alone between slashes of either kind. */
  ghost predicate ClimbsAt(text: string, k: int) {
    && 0 <= k && k + 2 <= |text| && text[k] == '.' && text[k + 1] == '.'
    && (k == 0 || IsSlash(text[k - 1])) && (k + 2 == |text| || IsSlash(text[k + 2]))
  }

  ghost predicate Climbs(text: string) {
    exists k :: ClimbsAt(text, k)
  }

  lemma ClimbingIsTold(text: string)
    ensures ".." in Split(SlashSeparated(text)) <==> Climbs(text)
  {
    var slashed := SlashSeparated(text);
    SlashSeparatedAt(text);
    SplitMembers(slashed, "..");
    forall k ensures ClimbsAt(text, k) <==> PartAt(slashed, k, "..") {
      if 0 <= k && k + 2 <= |text| {
        assert slashed[k..k + 2] == ".." <==> slashed[k] == '.' && slashed[k + 1] == '.';
      }
    }
  }

  ghost predicate HasGlob(text: string) {
    exists k :: 0 <= k < |text| && (text[k] == '*' || text[k] == '?' || text[k] == '[' || text[k] == ']')
  }

  lemma GlobIsTold(text: string)
    ensures HasAnyOf(text, "*?[]") <==> HasGlob(text)
  {
    HasAnyMeans(text, "*?[]");
  }

  ghost predicate HasNul(text: string) {
    exists k :: 0 <= k < |text| && text[k] == '\0'
  }

  lemma NulIsTold(text: string)
    ensures '\0' in text <==> HasNul(text)
  {
  }

  /** What is wrong with a target. */
  ghost predicate TargetHas(target: string, issue: Issue) {
    match issue
    case EmptyTarget => IsBlank(target)
    case NullByte => HasNul(target)
    case ParentTraversal => Climbs(target)
    case Glob => HasGlob(target)
    case _ => false
  }

  /** The order in which what is wrong is looked for; the three that are about a segment on Windows come together. */
  function Rank(issue: Issue): nat {
    match issue
    case EmptyTarget => 0
    case NullByte => 1
    case NotRelative => 2
    case ParentTraversal => 3
    case AlternateSeparator => 4
    case NotCanonical => 5
    case ReservedCharacter => 6
    case TrailingDotOrSpace => 6
    case ReservedName => 6
    case Glob => 7
  }

  /** A target is accepted exactly if nothing is wrong with it, and otherwise the first thing wrong is reported. */
  lemma TargetReasonIsFirst(target: string)
    ensures var reason := InvalidTargetReason(target);
      && (reason.None? <==> forall issue :: !TargetHas(target, issue))
      && (reason.Some? ==> TargetHas(target, reason.value)
                           && forall issue :: TargetHas(target, issue) ==> Rank(reason.value) <= Rank(issue))
  {
    BlankTextMeans(target);
    ClimbingIsTold(target);
    GlobIsTold(target);
    NulIsTold(target);
    if InvalidTargetReason(target).None? {
      forall issue ensures !TargetHas(target, issue) {}
    } else {
      assert TargetHas(target, InvalidTargetReason(target).value);
    }
  }

  ghost predicate IsReservedChar(c: char) {
    c == '<' || c == '>' || c == ':' || c == '"' || c == '|' || c == '?' || c == '*'
  }

  /** A device name, in any case, alone or before a dot and the rest of the line. */
  ghost predicate NamesDevice(segment: string) {
    exists name, tail :: IsDeviceNamed(segment, name, tail)
  }

  ghost predicate IsDeviceNamed(segment: string, name: string, tail: string) {
    && segment == name + tail && IsDevice(Lower(name))
    && (tail == "" || (tail[0] == '.' && forall k :: 0 < k < |tail| ==> tail[k] as int !in {10, 13, 0x2028, 0x2029}))
  }

  ghost predicate IsDevice(name: string) {
    || name == "con" || name == "prn" || name == "aux" || name == "nul"
    || (|name| == 4 && (name[..3] == "com" || name[..3] == "lpt") && '1' <= name[3] <= '9')
  }

  lemma {:induction false} OneLineMeans(text: string)
    ensures OneLine(text) <==> forall k :: 0 <= k < |text| ==> text[k] as int !in {10, 13, 0x2028, 0x2029}
  {
    if text != "" {
      OneLineMeans(text[1..]);
      assert forall k :: 0 < k < |text| ==> text[k] == text[1..][k - 1];
      assert OneLine(text[1..]) <==> forall k :: 0 < k < |text| ==> text[k] as int !in {10, 13, 0x2028, 0x2029};
    }
  }

  lemma {:induction false} StemMeans(segment: string)
    ensures Stem(segment) <= segment && '.' !in Stem(segment)
    ensures |Stem(segment)| < |segment| ==> segment[|Stem(segment)|] == '.'
  {
    if segment != "" && segment[0] != '.' { StemMeans(segment[1..]); }
  }

  lemma {:induction false} StemOfName(name: string, tail: string)
    requires '.' !in name && (tail == "" || tail[0] == '.')
    ensures Stem(name + tail) == name
  {
    if name == "" {
      assert name + tail == tail;
    } else {
      assert (name + tail)[1..] == name[1..] + tail && name[0] in name;
      StemOfName(name[1..], tail);
      assert name == [name[0]] + name[1..];
    }
  }

  lemma DeviceHasNoDot(name: string)
    requires IsDevice(Lower(name))
    ensures '.' !in name
  {
    LowerAt(name);
    var lower := Lower(name);
    assert |lower| == 4 ==> lower == lower[..3] + [lower[3]];
    assert '.' !in lower;
    assert forall k :: 0 <= k < |name| ==> (name[k] == '.' <==> lower[k] == '.');
  }

  lemma ReservedNameIsTold(segment: string)
    ensures IsReservedName(segment) <==> NamesDevice(segment)
  {
    var name := Stem(segment);
    StemMeans(segment);
    var tail := segment[|name|..];
    OneLineMeans(tail);
    assert segment == name + tail;
    if IsReservedName(segment) { assert IsDeviceNamed(segment, name, tail); }
    if name', tail' :| IsDeviceNamed(segment, name', tail') {
      DeviceHasNoDot(name');
      StemOfName(name', tail');
      assert tail' == tail;
    }
  }

  /** What is wrong with a segment on Windows. */
  ghost predicate SegmentHas(segment: string, issue: Issue) {
    match issue
    case ReservedCharacter => exists k :: 0 <= k < |segment| && IsReservedChar(segment[k])
    case TrailingDotOrSpace => segment != "" && (segment[|segment| - 1] == '.' || segment[|segment| - 1] == ' ')
    case ReservedName => NamesDevice(segment)
    case _ => false
  }

  ghost predicate SomeSegmentHas(segments: seq<string>, issue: Issue) {
    exists segment :: segment in segments && SegmentHas(segment, issue)
  }

  lemma FirstSegmentReason(segments: seq<string>)
    requires segments != []
    ensures var reason, first := WindowsSegmentReason(segments), segments[0];
      if forall issue :: !SegmentHas(first, issue) then reason == WindowsSegmentReason(segments[1..])
      else reason.Some? && SegmentHas(first, reason.value)
  {
    var first := segments[0];
    HasAnyMeans(first, "<>:\"|?*");
    ReservedNameIsTold(first);
    assert SegmentHas(first, ReservedCharacter) <==> HasAnyOf(first, "<>:\"|?*");
    assert SegmentHas(first, ReservedName) <==> IsReservedName(first);
    assert SegmentHas(first, TrailingDotOrSpace) <==> first != "" && first[|first| - 1] in ". ";
  }

  lemma {:induction false} SegmentReasonIsTold(segments: seq<string>)
    ensures var reason := WindowsSegmentReason(segments);
      && (reason.None? <==> forall issue :: !SomeSegmentHas(segments, issue))
      && (reason.Some? ==> SomeSegmentHas(segments, reason.value) && Rank(reason.value) == 6)
  {
    if segments != [] {
      FirstSegmentReason(segments);
      SegmentReasonIsTold(segments[1..]);
      assert segments == [segments[0]] + segments[1..];
      forall issue ensures SomeSegmentHas(segments, issue)
          <==> SegmentHas(segments[0], issue) || SomeSegmentHas(segments[1..], issue) {
      }
    }
  }

  /** What is wrong with a managed path. */
  ghost predicate EntryHas(path: string, platform: Platform, issue: Issue) {
    match issue
    case EmptyTarget => IsBlank(path)
    case NullByte => HasNul(path)
    case NotRelative =>
      path != "" && (IsSlash(path[0])
                     || (|path| >= 2 && ('a' <= path[0] <= 'z' || 'A' <= path[0] <= 'Z') && path[1] == ':'))
    case ParentTraversal => Climbs(path)
    case AlternateSeparator => exists k :: 0 <= k < |path| && path[k] == '\\'
    case NotCanonical => IsPartOf(path, "") || IsPartOf(path, ".")
    case Glob => HasGlob(path)
    case _ => platform.Windows? && exists part :: '/' !in part && IsPartOf(path, part) && SegmentHas(part, issue)
  }

  lemma {:induction false} NoneDroppedMeans(segments: seq<string>)
    ensures NoneDropped(segments) <==> "" !in segments && "." !in segments
  {
    if segments != [] {
      NoneDroppedMeans(segments[1..]);
      assert segments == [segments[0]] + segments[1..];
    }
  }

  lemma CanonicalIsTold(path: string)
    ensures NoneDropped(Split(path)) <==> !IsPartOf(path, "") && !IsPartOf(path, ".")
  {
    NoneDroppedMeans(Split(path));
    SplitMembers(path, "");
    SplitMembers(path, ".");
  }

  lemma SegmentsOfPath(path: string, issue: Issue)
    ensures SomeSegmentHas(Split(path), issue)
      <==> exists part :: '/' !in part && IsPartOf(path, part) && SegmentHas(part, issue)
  {
    SplitIsSlashless(path);
    if segment :| segment in Split(path) && SegmentHas(segment, issue) {
      SlashlessMember(Split(path), segment);
      SplitMembers(path, segment);
    }
    if part :| '/' !in part && IsPartOf(path, part) && SegmentHas(part, issue) { SplitMembers(path, part); }
  }

  lemma {:induction false} SlashlessMember(parts: seq<string>, part: string)
    requires Slashless(parts) && part in parts
    ensures '/' !in part
  {
    if part != parts[0] {
      assert parts == [parts[0]] + parts[1..];
      SlashlessMember(parts[1..], part);
    }
  }

  /** What is wrong with a managed path, by the tests that the function makes. */
  ghost predicate EntryFails(path: string, platform: Platform, issue: Issue) {
    match issue
    case EmptyTarget => IsBlankText(path)
    case NullByte => '\0' in path
    case NotRelative =>
      path != "" && (path[0] == '/' || path[0] == '\\' || (|path| >= 2 && IsLetter(path[0]) && path[1] == ':'))
    case ParentTraversal => ".." in Split(SlashSeparated(path))
    case AlternateSeparator => '\\' in path
    case NotCanonical => !NoneDropped(Split(path))
    case Glob => HasAnyOf(path, "*?[]")
    case _ => platform.Windows? && SomeSegmentHas(Split(path), issue)
  }

  lemma EntryIsTold(path: string, platform: Platform, issue: Issue)
    ensures EntryHas(path, platform, issue) <==> EntryFails(path, platform, issue)
  {
    BlankTextMeans(path);
    ClimbingIsTold(path);
    CanonicalIsTold(path);
    GlobIsTold(path);
    NulIsTold(path);
    SegmentsOfPath(path, issue);
  }

  lemma FirstFailing(path: string, platform: Platform)
    requires InvalidRelativeTargetReason(path, platform).Some?
    ensures var reason := InvalidRelativeTargetReason(path, platform).value;
      EntryFails(path, platform, reason)
        && forall issue :: EntryFails(path, platform, issue) ==> Rank(reason) <= Rank(issue)
  {
    SegmentReasonIsTold(Split(path));
  }

  lemma NothingFails(path: string, platform: Platform, issue: Issue)
    requires InvalidRelativeTargetReason(path, platform).None?
    ensures !EntryFails(path, platform, issue)
  {
    SegmentReasonIsTold(Split(path));
  }

  /** A managed path is accepted exactly if nothing is wrong with it, and otherwise the first thing wrong is reported.
      */
  lemma EntryReasonIsFirst(path: string, platform: Platform)
    ensures var reason := InvalidRelativeTargetReason(path, platform);
      && (reason.None? <==> forall issue :: !EntryHas(path, platform, issue))
      && (reason.Some? ==> EntryHas(path, platform, reason.value)
                           && forall issue :: EntryHas(path, platform, issue) ==> Rank(reason.value) <= Rank(issue))
  {
    forall issue ensures EntryHas(path, platform, issue) <==> EntryFails(path, platform, issue) {
      EntryIsTold(path, platform, issue);
    }
    if InvalidRelativeTargetReason(path, platform).Some? {
      FirstFailing(path, platform);
    } else {
      forall issue ensures !EntryFails(path, platform, issue) { NothingFails(path, platform, issue); }
    }
  }
}
