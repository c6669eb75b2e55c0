/** Texts: joining and cutting them, searching and replacing in them, letter case and blanks. */
module Texts {

  function Join(parts: seq<string>, separator: string): string {
    if parts == [] then "" else if |parts| == 1 then parts[0] else parts[0] + separator + Join(parts[1..], separator)
  }

  lemma JoinThen(parts: seq<string>, separator: string, tail: string)
    requires parts != []
    ensures Join(parts, separator) + tail
            == parts[0] + (if |parts| == 1 then tail else separator + (Join(parts[1..], separator) + tail))
  {
  }

  /** Two texts cut at their first separator. */
  lemma CutAtFirst(left: string, left': string, separator: char, right: string, right': string)
    requires separator !in left && separator !in left'
    requires left + [separator] + right == left' + [separator] + right'
    ensures left == left' && right == right'
  {
    var whole := left + [separator] + right;
    assert whole == left' + [separator] + right';
    assert whole[|left|] == separator && whole[|left'|] == separator;
    assert left == whole[..|left|] && left' == whole[..|left'|];
    assert right == whole[|left| + 1..] && right' == whole[|left'| + 1..];
  }

  /** Two texts cut at their last separator. */
  lemma CutAtLast(left: string, left': string, separator: char, right: string, right': string)
    requires separator !in right && separator !in right'
    requires left + [separator] + right == left' + [separator] + right'
    ensures left == left' && right == right'
  {
    var whole := left + [separator] + right;
    assert whole == left' + [separator] + right';
    assert whole[|left|] == separator && whole[|left'|] == separator;
    assert forall k :: |left| < k < |whole| ==> whole[k] == right[k - |left| - 1];
    assert forall k :: |left'| < k < |whole| ==> whole[k] == right'[k - |left'| - 1];
    assert left == whole[..|left|] && left' == whole[..|left'|];
    assert right == whole[|left| + 1..] && right' == whole[|left'| + 1..];
  }

  /** Parts that can be read back: none is empty and none holds the separator. */
  predicate Separable(parts: seq<string>, separator: char) {
    forall part :: part in parts ==> part != "" && separator !in part
  }

  lemma {:induction false} SeparatorInJoin(parts: seq<string>, separator: char)
    requires Separable(parts, separator)
    ensures separator in Join(parts, [separator]) <==> |parts| > 1
    ensures Join(parts, [separator]) == "" <==> parts == []
  {
    if |parts| == 1 {
      assert parts[0] in parts;
    } else if |parts| > 1 {
      assert parts[0] in parts;
      assert [separator][0] in Join(parts, [separator]);
    }
  }

  lemma {:induction false} JoinIsInjective(parts: seq<string>, parts': seq<string>, separator: char)
    requires Separable(parts, separator) && Separable(parts', separator)
    requires Join(parts, [separator]) == Join(parts', [separator])
    ensures parts == parts'
  {
    SeparatorInJoin(parts, separator);
    SeparatorInJoin(parts', separator);
    if |parts| > 1 {
      assert parts[0] in parts && parts'[0] in parts';
      CutAtFirst(parts[0], parts'[0], separator, Join(parts[1..], [separator]), Join(parts'[1..], [separator]));
      assert forall part :: part in parts[1..] ==> part in parts;
      assert forall part :: part in parts'[1..] ==> part in parts';
      JoinIsInjective(parts[1..], parts'[1..], separator);
      assert parts == [parts[0]] + parts[1..] && parts' == [parts'[0]] + parts'[1..];
    } else if |parts| == 1 {
      assert parts == [parts[0]] && parts' == [parts'[0]];
    }
  }

  // ---------------------------------------------------------------- looking for a pattern

  /** `text` and `pattern` disagree before either ends, so `pattern` is not found at the start, whatever follows. */
  predicate Differs(text: string, pattern: string) {
    text != "" && pattern != "" && (text[0] != pattern[0] || Differs(text[1..], pattern[1..]))
  }

  /** The pattern starts nowhere in `text`, whatever follows it. */
  predicate StartsNowhere(text: string, pattern: string) {
    text == "" || (Differs(text, pattern) && StartsNowhere(text[1..], pattern))
  }

  lemma {:induction false} DiffersMeaning(text: string, rest: string, pattern: string)
    requires Differs(text, pattern)
    ensures !(pattern <= text + rest)
  {
    if text[0] == pattern[0] {
      DiffersMeaning(text[1..], rest, pattern[1..]);
      assert (text + rest)[1..] == text[1..] + rest;
    }
  }

  lemma {:induction false} StartsNowhereWithout(text: string, pattern: string)
    requires pattern != "" && pattern[0] !in text
    ensures StartsNowhere(text, pattern)
  {
    if text != "" { StartsNowhereWithout(text[1..], pattern); }
  }

  lemma {:induction false} StartsNowhereInBoth(left: string, right: string, pattern: string)
    requires StartsNowhere(left, pattern) && StartsNowhere(right, pattern)
    ensures StartsNowhere(left + right, pattern)
  {
    if left == "" {
      assert left + right == right;
    } else {
      StartsNowhereInBoth(left[1..], right, pattern);
      assert (left + right)[1..] == left[1..] + right;
      DiffersInLonger(left, right, pattern);
    }
  }

  lemma {:induction false} DiffersInLonger(text: string, rest: string, pattern: string)
    requires Differs(text, pattern)
    ensures Differs(text + rest, pattern)
  {
    assert (text + rest)[1..] == text[1..] + rest;
    if text[0] == pattern[0] { DiffersInLonger(text[1..], rest, pattern[1..]); }
  }

  /** `text.replaceAll(pattern, replacement)`. */
  function ReplaceAll(text: string, pattern: string, replacement: string): string
    requires pattern != ""
  {
    if text == "" then ""
    else if pattern <= text then replacement + ReplaceAll(text[|pattern|..], pattern, replacement)
    else [text[0]] + ReplaceAll(text[1..], pattern, replacement)
  }

  lemma {:induction false} ReplaceSkips(text: string, rest: string, pattern: string, replacement: string)
    requires pattern != "" && StartsNowhere(text, pattern)
    ensures ReplaceAll(text + rest, pattern, replacement) == text + ReplaceAll(rest, pattern, replacement)
  {
    if text == "" {
      assert text + rest == rest;
    } else {
      DiffersMeaning(text, rest, pattern);
      assert (text + rest)[1..] == text[1..] + rest;
      ReplaceSkips(text[1..], rest, pattern, replacement);
      assert text == [text[0]] + text[1..];
    }
  }

  lemma ReplaceHere(pattern: string, rest: string, replacement: string)
    requires pattern != ""
    ensures ReplaceAll(pattern + rest, pattern, replacement) == replacement + ReplaceAll(rest, pattern, replacement)
  {
    assert (pattern + rest)[|pattern|..] == rest;
  }

  // ---------------------------------------------------------------- letter case, for ASCII

  predicate IsLetter(c: char) {
    'A' <= c <= 'Z' || 'a' <= c <= 'z'
  }

  function LowerOf(c: char): char {
    if 'A' <= c <= 'Z' then c - 'A' + 'a' else c
  }

  function Lower(text: string): string {
    if text == "" then "" else [LowerOf(text[0])] + Lower(text[1..])
  }

  /** Letter by letter: capitals move 32 places up, everything else stays. */
  lemma {:induction false} LowerAt(text: string)
    ensures |Lower(text)| == |text|
    ensures forall k :: 0 <= k < |text| ==>
      Lower(text)[k] == if 65 <= text[k] as int <= 90 then (text[k] as int + 32) as char else text[k]
  {
    if text != "" { LowerAt(text[1..]); }
  }

  predicate IsDigit(c: char) {
    '0' <= c <= '9'
  }

  // ---------------------------------------------------------------- blanks

  /** Characters that JavaScript's `\s` matches and `trim` removes. */
  predicate IsSpace(c: char) {
    || '\t' <= c <= '\r' || c == ' ' || c == '\U{A0}' || c == '\U{1680}' || '\U{2000}' <= c <= '\U{200A}'
    || c == '\U{2028}' || c == '\U{2029}' || c == '\U{202F}' || c == '\U{205F}' || c == '\U{3000}' || c == '\U{FEFF}'
  }

  function TrimStart(text: string): string {
    if text != "" && IsSpace(text[0]) then TrimStart(text[1..]) else text
  }

  function TrimEnd(text: string): string {
    if text != "" && IsSpace(text[|text| - 1]) then TrimEnd(text[..|text| - 1]) else text
  }

  /** `text.trim()`. */
  function Trim(text: string): string {
    TrimEnd(TrimStart(text))
  }

  /** The white space and line ends of ECMAScript, by code point. */
  lemma SpacesAreTold(c: char)
    ensures var code := c as int;
      IsSpace(c) <==> 9 <= code <= 13 || code in {32, 160, 5760} || 8192 <= code <= 8202
                      || code in {8232, 8233, 8239, 8287, 12288, 65279}
  {
  }

  predicate IsBlank(text: string) {
    forall k :: 0 <= k < |text| ==> IsSpace(text[k])
  }

  lemma {:induction false} TrimStartMeans(text: string) returns (blanks: string)
    ensures IsBlank(blanks) && text == blanks + TrimStart(text)
    ensures TrimStart(text) == "" || !IsSpace(TrimStart(text)[0])
  {
    blanks := "";
    if text != "" && IsSpace(text[0]) {
      var more := TrimStartMeans(text[1..]);
      blanks := [text[0]] + more;
    }
  }

  lemma {:induction false} TrimEndMeans(text: string) returns (blanks: string)
    ensures IsBlank(blanks) && text == TrimEnd(text) + blanks
    ensures TrimEnd(text) == "" || !IsSpace(TrimEnd(text)[|TrimEnd(text)| - 1])
  {
    blanks := "";
    if text != "" && IsSpace(text[|text| - 1]) {
      var more := TrimEndMeans(text[..|text| - 1]);
      blanks := more + [text[|text| - 1]];
    }
  }

  /** Trimming takes blanks from both ends and leaves none there. */
  lemma TrimMeans(text: string) returns (before: string, after: string)
    ensures IsBlank(before) && IsBlank(after) && text == before + Trim(text) + after
    ensures Trim(text) == "" || (!IsSpace(Trim(text)[0]) && !IsSpace(Trim(text)[|Trim(text)| - 1]))
  {
    before := TrimStartMeans(text);
    after := TrimEndMeans(TrimStart(text));
    if Trim(text) != "" { assert TrimStart(text)[0] == Trim(text)[0]; }
  }

  lemma OnlyBlanksTrimAway(text: string)
    ensures Trim(text) == "" <==> IsBlank(text)
  {
    var before, after := TrimMeans(text);
    assert Trim(text) != "" ==> text[|before|] == Trim(text)[0];
  }

  // ---------------------------------------------------------------- searching

  predicate At(text: string, place: int, pattern: string) {
    0 <= place && place + |pattern| <= |text| && text[place..place + |pattern|] == pattern
  }

  ghost predicate Contains(text: string, pattern: string) {
    exists place :: At(text, place, pattern)
  }

  /** `text.indexOf(pattern, from)`. */
  function IndexOf(text: string, pattern: string, from: nat): (place: int)
    requires from <= |text|
    ensures place == -1 || (from <= place && At(text, place, pattern))
    ensures forall other :: from <= other && (place == -1 || other < place) ==> !At(text, other, pattern)
    decreases |text| - from
  {
    if At(text, from, pattern) then from
    else if from == |text| then -1
    else IndexOf(text, pattern, from + 1)
  }

  predicate Includes(text: string, pattern: string)
    ensures Includes(text, pattern) <==> Contains(text, pattern)
  {
    IndexOf(text, pattern, 0) >= 0
  }
}
