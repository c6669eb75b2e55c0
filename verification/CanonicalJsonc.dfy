/** Canonical encodings under JSONC stripping: it finds no comment and no trailing comma in them. */
module CanonicalJsonc {
  import opened Options
  import opened Texts
  import opened CanonicalJson
  import opened Jsonc

  // ---------------------------------------------------------------- canonical encodings

  /** No white space outside string literals. */
  ghost predicate IsCompact(tokens: seq<Token>) {
    forall k :: 0 <= k < |tokens| ==> (tokens[k].Other? ==> !IsSpace(tokens[k].c))
  }

  /** Text whose tokens stripping leaves as they are, without a blank between them. */
  ghost predicate IsQuietAs(text: string, tokens: seq<Token>) {
    Stable(tokens) && Source(tokens) == text && WithoutTrailing(tokens) == tokens && IsCompact(tokens)
  }

  ghost predicate IsQuiet(text: string) {
    exists tokens :: IsQuietAs(text, tokens)
  }

  lemma QuietNothing()
    ensures IsQuiet("")
  {
    assert IsQuietAs("", []);
  }

  lemma QuietToken(token: Token, rest: string, tokens: seq<Token>)
    requires IsQuietAs(rest, tokens) && Stable([token] + tokens) && !IsTrailing([token] + tokens)
    requires token.Other? ==> !IsSpace(token.c)
    ensures IsQuiet(token.Source() + rest)
  {
    SourceOf(token, tokens);
    assert ([token] + tokens)[1..] == tokens;
    assert IsQuietAs(token.Source() + rest, [token] + tokens);
  }

  lemma QuietChar(c: char, rest: string)
    requires IsQuiet(rest) && c != '"' && c != '/' && c != ',' && !IsSpace(c)
    ensures IsQuiet([c] + rest)
  {
    var tokens :| IsQuietAs(rest, tokens);
    assert ([Other(c)] + tokens)[1..] == tokens;
    QuietToken(Other(c), rest, tokens);
  }

  /** A comma before something that is neither white space nor a closing bracket. */
  lemma QuietComma(rest: string)
    requires IsQuiet(rest) && rest != "" && !IsSpace(rest[0]) && rest[0] != '}' && rest[0] != ']'
    ensures IsQuiet("," + rest)
  {
    var tokens :| IsQuietAs(rest, tokens);
    assert ([Other(',')] + tokens)[1..] == tokens;
    StableFirst(tokens[0], Source(tokens[1..]), tokens);
    QuietToken(Other(','), rest, tokens);
  }

  /** Characters that are neither a quote, a slash, a comma nor a blank. */
  predicate IsInert(text: string) {
    text == "" || (text[0] != '"' && text[0] != '/' && text[0] != ',' && !IsSpace(text[0]) && IsInert(text[1..]))
  }

  lemma {:induction false} QuietPlain(plain: string, rest: string)
    requires IsQuiet(rest) && IsInert(plain)
    ensures IsQuiet(plain + rest)
  {
    if plain == "" {
      assert plain + rest == rest;
    } else {
      QuietPlain(plain[1..], rest);
      QuietChar(plain[0], plain[1..] + rest);
      FirstAndRest(plain, rest);
    }
  }

  lemma FirstAndRest(text: string, rest: string)
    requires text != ""
    ensures text + rest == [text[0]] + (text[1..] + rest)
  {
  }

  lemma {:induction false} NumberCharsAreInert(text: string)
    requires forall c :: c in text ==> IsNumberChar(c)
    ensures IsInert(text)
  {
    if text != "" {
      assert text[0] in text;
      NumberCharsAreInert(text[1..]);
    }
  }

  lemma EscapedPair(x: char, rest: string)
    ensures OpenString("\\" + ([x] + rest), false) == 2 + OpenString(rest, false)
    ensures Closes("\\" + ([x] + rest), false) == Closes(rest, false)
  {
    assert ("\\" + ([x] + rest))[1..] == [x] + rest && ([x] + rest)[1..] == rest;
  }

  /** An escape never holds the quote that closes its string. */
  lemma CharStaysInside(c: char, rest: string)
    ensures OpenString(EncodeChar(c) + rest, false) == |EncodeChar(c)| + OpenString(rest, false)
    ensures Closes(EncodeChar(c) + rest, false) == Closes(rest, false)
  {
    if |EncodeChar(c)| == 1 {
      assert EncodeChar(c) + rest == [c] + rest && ([c] + rest)[1..] == rest;
    } else if |EncodeChar(c)| == 2 {
      assert EncodeChar(c) + rest == "\\" + ([EncodeChar(c)[1]] + rest);
      EscapedPair(EncodeChar(c)[1], rest);
    } else {
      ControlStaysInside(c, rest);
    }
  }

  lemma ControlStaysInside(c: char, rest: string)
    requires c < ' '
    ensures var text := "\\u00" + [HexDigit(c as nat / 16), HexDigit(c as nat % 16)] + rest;
            OpenString(text, false) == 6 + OpenString(rest, false) && Closes(text, false) == Closes(rest, false)
  {
    var high, low := HexDigit(c as nat / 16), HexDigit(c as nat % 16);
    HexIsRead(c as nat / 16);
    HexIsRead(c as nat % 16);
    assert "\\u00" + [high, low] + rest == "\\" + (['u'] + (['0', '0', high, low] + rest));
    EscapedPair('u', ['0', '0', high, low] + rest);
    FourPlain('0', '0', high, low, rest);
  }

  lemma FourPlain(a: char, b: char, c: char, d: char, rest: string)
    requires forall x :: x in [a, b, c, d] ==> x != '"' && x != '\\'
    ensures OpenString([a, b, c, d] + rest, false) == 4 + OpenString(rest, false)
    ensures Closes([a, b, c, d] + rest, false) == Closes(rest, false)
  {
    var text := [a, b, c, d] + rest;
    assert text[1..][1..][1..][1..] == rest;
    assert a in [a, b, c, d] && b in [a, b, c, d] && c in [a, b, c, d] && d in [a, b, c, d];
    OnePlain(text);
    OnePlain(text[1..]);
    OnePlain(text[1..][1..]);
    OnePlain(text[1..][1..][1..]);
  }

  lemma OnePlain(text: string)
    requires text != "" && text[0] != '"' && text[0] != '\\'
    ensures OpenString(text, false) == 1 + OpenString(text[1..], false)
    ensures Closes(text, false) == Closes(text[1..], false)
  {
  }

  lemma {:induction false} EncodedTextCloses(text: string)
    ensures OpenString(EncodeChars(text) + "\"", false) == |EncodeChars(text)| + 1
            && Closes(EncodeChars(text) + "\"", false)
  {
    if text == "" {
      assert EncodeChars(text) + "\"" == "\"";
    } else {
      EncodedTextCloses(text[1..]);
      assert EncodeChars(text) + "\"" == EncodeChar(text[0]) + (EncodeChars(text[1..]) + "\"");
      CharStaysInside(text[0], EncodeChars(text[1..]) + "\"");
    }
  }

  lemma QuietText(text: string, rest: string)
    requires IsQuiet(rest)
    ensures IsQuiet(EncodeText(text) + rest)
  {
    EncodedTextCloses(text);
    assert EncodeText(text)[1..] == EncodeChars(text) + "\"";
    var tokens :| IsQuietAs(rest, tokens);
    assert ([Literal(EncodeText(text))] + tokens)[1..] == tokens;
    QuietToken(Literal(EncodeText(text)), rest, tokens);
  }

  /** What an encoding starts with stops no comma from being kept. */
  lemma EncodingStart(value: Json, rest: string)
    ensures var text := Encode(value) + rest;
            text != "" && !IsSpace(text[0]) && text[0] != '}' && text[0] != ']' && text[0] != '/'
  {
    FirstChar(value, rest);
    if value.Number? { NumberChars(value.token); assert value.token[0] in value.token; }
  }

  lemma QuietNumber(token: NumberToken, rest: string)
    requires IsQuiet(rest)
    ensures IsQuiet(token + rest)
  {
    NumberChars(token);
    NumberCharsAreInert(token);
    QuietPlain(token, rest);
  }

  /** A text in brackets. */
  lemma QuietBrackets(open: char, inside: string, rest: string)
    requires IsQuiet(inside + rest) && (open == '[' || open == '{')
    ensures IsQuiet([open] + inside + rest)
  {
    QuietChar(open, inside + rest);
    assert [open] + inside + rest == [open] + (inside + rest);
  }

  lemma QuietNull(rest: string)
    requires IsQuiet(rest)
    ensures IsQuiet(Encode(Null) + rest)
  {
    QuietPlain("null", rest);
  }

  lemma QuietBool(truth: bool, rest: string)
    requires IsQuiet(rest)
    ensures IsQuiet(Encode(Bool(truth)) + rest)
  {
    if truth { QuietPlain("true", rest); } else { QuietPlain("false", rest); }
  }

  lemma {:induction false} QuietValue(value: Json, rest: string)
    requires IsQuiet(rest)
    ensures IsQuiet(Encode(value) + rest)
    decreases value, 2
  {
    match value
    case Null => QuietNull(rest);
    case Bool(truth) => QuietBool(truth, rest);
    case Number(token) => QuietNumber(token, rest);
    case Text(text) => QuietText(text, rest);
    case Array(items) => QuietArray(value, rest);
    case Object(members) => QuietObject(value, rest);
  }

  lemma {:induction false} QuietArray(value: Json, rest: string)
    requires IsQuiet(rest) && value.Array?
    ensures IsQuiet(Encode(value) + rest)
    decreases value, 1
  {
    var inside := EncodeItems(value.items);
    QuietChar(']', rest);
    QuietItems(value.items, "]" + rest);
    QuietBrackets('[', inside, "]" + rest);
    BracketsText("[", inside, "]", rest);
  }

  lemma BracketsText(open: string, inside: string, close: string, rest: string)
    ensures open + inside + close + rest == open + inside + (close + rest)
  {
  }

  lemma {:induction false} QuietObject(value: Json, rest: string)
    requires IsQuiet(rest) && value.Object?
    ensures IsQuiet(Encode(value) + rest)
    decreases value, 1
  {
    var keys := SortedKeys(value.members.Keys);
    var inside := EncodeMembers(value, keys);
    QuietChar('}', rest);
    QuietMembers(value, keys, "}" + rest);
    QuietBrackets('{', inside, "}" + rest);
    BracketsText("{", inside, "}", rest);
  }

  lemma ItemsParts(items: seq<Json>, rest: string)
    requires items != []
    ensures EncodeItems(items) + rest == Encode(items[0]) + (if |items| == 1 then rest
                                                             else "," + (EncodeItems(items[1..]) + rest))
  {
  }

  lemma {:induction false} QuietItems(items: seq<Json>, rest: string)
    requires IsQuiet(rest)
    ensures IsQuiet(EncodeItems(items) + rest)
    decreases items, 1
  {
    if items == [] {
      assert EncodeItems(items) + rest == rest;
    } else {
      ItemsParts(items, rest);
      if |items| == 1 {
        QuietValue(items[0], rest);
      } else {
        var more := EncodeItems(items[1..]) + rest;
        QuietItems(items[1..], rest);
        ItemsBegin(items[1..], rest);
        QuietComma(more);
        QuietValue(items[0], "," + more);
      }
    }
  }

  lemma ItemsBegin(items: seq<Json>, rest: string)
    requires items != []
    ensures var text := EncodeItems(items) + rest;
            text != "" && !IsSpace(text[0]) && text[0] != '}' && text[0] != ']' && text[0] != '/'
  {
    var more := if |items| == 1 then "" else "," + EncodeItems(items[1..]);
    EncodingStart(items[0], more + rest);
    assert EncodeItems(items) + rest == Encode(items[0]) + (more + rest);
  }

  lemma {:induction false} QuietMembers(value: Json, keys: seq<string>, rest: string)
    requires IsQuiet(rest) && value.Object? && forall key :: key in keys ==> key in value.members
    ensures IsQuiet(EncodeMembers(value, keys) + rest)
    decreases value, 1, |keys|
  {
    if keys == [] {
      assert EncodeMembers(value, keys) + rest == rest;
    } else {
      var member := value.members[keys[0]];
      var more := if |keys| == 1 then rest else "," + (EncodeMembers(value, keys[1..]) + rest);
      if |keys| > 1 {
        QuietMembers(value, keys[1..], rest);
        assert (EncodeMembers(value, keys[1..]) + rest)[0] == '"';
        QuietComma(EncodeMembers(value, keys[1..]) + rest);
      }
      QuietValue(member, more);
      QuietChar(':', Encode(member) + more);
      QuietText(keys[0], ":" + (Encode(member) + more));
      MemberText(value, keys, rest);
    }
  }

  lemma MemberText(value: Json, keys: seq<string>, rest: string)
    requires value.Object? && keys != [] && forall key :: key in keys ==> key in value.members
    ensures EncodeMembers(value, keys) + rest
            == EncodeText(keys[0]) + (":" + (Encode(value.members[keys[0]])
               + (if |keys| == 1 then rest else "," + (EncodeMembers(value, keys[1..]) + rest))))
  {
  }

  /** Stripping leaves every canonical encoding unchanged, so the authoring parser reads canonical JSON as it is; and no
      encoding has a comment, or white space outside its strings. */
  lemma StrippingKeepsCanonical(value: Json)
    ensures Stripped(Encode(value)) == Some(Encode(value))
    ensures Lex(Encode(value)).Some? && IsCompact(Lex(Encode(value)).value)
    ensures forall k :: 0 <= k < |Lex(Encode(value)).value| ==> !Lex(Encode(value)).value[k].Comment?
  {
    QuietNothing();
    QuietValue(value, "");
    assert Encode(value) + "" == Encode(value);
    var tokens :| IsQuietAs(Encode(value), tokens);
    StableLexes(tokens);
    BlankedOfStable(tokens);
    StableHasNoComment(tokens);
  }

  lemma {:induction false} StableHasNoComment(tokens: seq<Token>)
    requires Stable(tokens)
    ensures forall k :: 0 <= k < |tokens| ==> !tokens[k].Comment?
  {
    if tokens != [] { StableHasNoComment(tokens[1..]); }
  }
}
