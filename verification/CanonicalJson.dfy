/** Canonical JSON (`src/profile/profile-codec.ts`) against a parser for the grammar of RFC 8259: every
    encoding reads back to the value it encodes, so equal encodings mean equal values. */
module CanonicalJson {
  import opened Options
  import opened Sorting
  import opened Texts

  // ---------------------------------------------------------------- values

  function DigitRun(text: string): nat
    ensures DigitRun(text) <= |text|
  {
    if text != "" && IsDigit(text[0]) then 1 + DigitRun(text[1..]) else 0
  }

  predicate IsExponent(text: string) {
    text == "" || ((text[0] == 'e' || text[0] == 'E')
                   && var digits := if |text| > 1 && (text[1] == '+' || text[1] == '-') then text[2..] else text[1..];
                   digits != "" && DigitRun(digits) == |digits|)
  }

  predicate IsFraction(text: string) {
    if text != "" && text[0] == '.' then DigitRun(text[1..]) > 0 && IsExponent(text[1 + DigitRun(text[1..])..])
    else IsExponent(text)
  }

  /** A number as section 6 of RFC 8259 writes it. */
  predicate IsNumber(text: string) {
    var digits := if text != "" && text[0] == '-' then text[1..] else text;
    digits != "" && IsDigit(digits[0])
    && IsFraction(if digits[0] == '0' then digits[1..] else digits[DigitRun(digits)..])
  }

  // The grammar of section 6 of RFC 8259, written as the parts of a number.

  ghost predicate AreDigits(text: string) {
    text != "" && forall k :: 0 <= k < |text| ==> '0' <= text[k] <= '9'
  }

  ghost predicate IsWhole(text: string) {
    text == "0" || (AreDigits(text) && text[0] != '0')
  }

  ghost predicate IsFractionPart(text: string) {
    text == "" || (text[0] == '.' && AreDigits(text[1..]))
  }

  ghost predicate IsExponentPart(text: string) {
    text == "" || ((text[0] == 'e' || text[0] == 'E')
                   && (AreDigits(text[1..])
                       || (|text| > 1 && (text[1] == '+' || text[1] == '-') && AreDigits(text[2..]))))
  }

  ghost predicate HasNumberParts(text: string, sign: string, whole: string, fraction: string, exponent: string) {
    && text == sign + (whole + (fraction + exponent)) && (sign == "" || sign == "-")
    && IsWhole(whole) && IsFractionPart(fraction) && IsExponentPart(exponent)
  }

  lemma {:induction false} DigitsRun(digits: string, rest: string)
    requires forall k :: 0 <= k < |digits| ==> '0' <= digits[k] <= '9'
    requires rest == "" || !IsDigit(rest[0])
    ensures DigitRun(digits + rest) == |digits|
  {
    if digits == "" {
      assert digits + rest == rest;
    } else {
      assert (digits + rest)[1..] == digits[1..] + rest;
      DigitsRun(digits[1..], rest);
    }
  }

  lemma {:induction false} RunIsDigits(text: string)
    ensures forall k :: 0 <= k < DigitRun(text) ==> '0' <= text[k] <= '9'
    ensures DigitRun(text) < |text| ==> !IsDigit(text[DigitRun(text)])
  {
    if text != "" && IsDigit(text[0]) {
      RunIsDigits(text[1..]);
      assert forall k :: 0 < k < DigitRun(text) ==> text[k] == text[1..][k - 1];
    }
  }

  lemma ExponentIsTold(text: string)
    ensures IsExponent(text) <==> IsExponentPart(text)
  {
    if text != "" {
      ForDigits(text[1..]);
      if |text| > 1 { ForDigits(text[2..]); }
    }
  }

  lemma ForDigits(text: string)
    ensures text != "" && DigitRun(text) == |text| <==> AreDigits(text)
  {
    RunIsDigits(text);
    if AreDigits(text) {
      DigitsRun(text, "");
      assert text + "" == text;
    }
  }

  ghost predicate HasTail(text: string, fraction: string, exponent: string) {
    text == fraction + exponent && IsFractionPart(fraction) && IsExponentPart(exponent)
  }

  lemma FractionIsTold(text: string)
    ensures IsFraction(text) <==> exists fraction, exponent :: HasTail(text, fraction, exponent)
  {
    if text != "" && text[0] == '.' {
      if IsFraction(text) { PointHasTail(text); }
      if fraction, exponent :| HasTail(text, fraction, exponent) { TailHasPoint(text, fraction, exponent); }
    } else {
      ExponentIsTold(text);
      assert "" + text == text;
      if IsFraction(text) { assert HasTail(text, "", text); }
      if fraction, exponent :| HasTail(text, fraction, exponent) {
        assert fraction == "" && exponent == text;
      }
    }
  }

  lemma PointHasTail(text: string)
    requires text != "" && text[0] == '.' && IsFraction(text)
    ensures exists fraction, exponent :: HasTail(text, fraction, exponent)
  {
    var run := DigitRun(text[1..]);
    RunIsDigits(text[1..]);
    var fraction, exponent := text[..1 + run], text[1 + run..];
    ExponentIsTold(exponent);
    assert fraction[1..] == text[1..][..run] && text == fraction + exponent;
    assert HasTail(text, fraction, exponent);
  }

  lemma TailHasPoint(text: string, fraction: string, exponent: string)
    requires text != "" && text[0] == '.' && HasTail(text, fraction, exponent)
    ensures IsFraction(text)
  {
    assert exponent != "" ==> !IsDigit(exponent[0]);
    assert fraction != "";
    assert text[1..] == fraction[1..] + exponent;
    DigitsRun(fraction[1..], exponent);
    assert text[1 + DigitRun(text[1..])..] == exponent;
    ExponentIsTold(exponent);
  }

  lemma BehindWhole(text: string, digits: string)
    requires digits != "" && digits == if text != "" && text[0] == '-' then text[1..] else text
    ensures var cut := if digits[0] == '0' then 1 else DigitRun(digits);
      IsNumber(text) <==> IsDigit(digits[0]) && IsFraction(digits[cut..])
  {
  }

  lemma WholeIsCut(whole: string, rest: string)
    requires IsWhole(whole) && (rest == "" || !IsDigit(rest[0]))
    ensures var digits := whole + rest;
      IsDigit(digits[0]) && digits[if digits[0] == '0' then 1 else DigitRun(digits)..] == rest
  {
    DigitsRun(whole, rest);
  }

  /** A number is a sign, a whole part without leading zeros, a fraction and an exponent, the first and the last two of
      which may be missing. */
  lemma NumberIsTold(text: string)
    ensures IsNumber(text)
      <==> exists sign, whole, fraction, exponent :: HasNumberParts(text, sign, whole, fraction, exponent)
  {
    if IsNumber(text) { NumberHasParts(text); }
    if sign, whole, fraction, exponent :| HasNumberParts(text, sign, whole, fraction, exponent) {
      var rest := fraction + exponent;
      assert rest != "" ==> !IsDigit(rest[0]);
      WholeIsCut(whole, rest);
      assert HasTail(rest, fraction, exponent);
      FractionIsTold(rest);
      assert text[0] == if sign == "-" then '-' else whole[0];
      assert sign == "-" ==> text[1..] == whole + rest;
      BehindWhole(text, whole + rest);
    }
  }

  lemma WholeInFront(digits: string)
    requires digits != "" && IsDigit(digits[0])
    ensures var cut := if digits[0] == '0' then 1 else DigitRun(digits);
      cut <= |digits| && IsWhole(digits[..cut])
  {
    RunIsDigits(digits);
    assert digits[0] == '0' ==> digits[..1] == "0";
  }

  lemma PartsOfTail(rest: string) returns (fraction: string, exponent: string)
    requires IsFraction(rest)
    ensures HasTail(rest, fraction, exponent)
  {
    FractionIsTold(rest);
    fraction, exponent :| HasTail(rest, fraction, exponent);
  }

  lemma CutApart(text: string, cut: nat, more: string)
    requires cut <= |text| && text[cut..] == more
    ensures text == text[..cut] + more
  {
  }

  lemma NumberHasParts(text: string)
    requires IsNumber(text)
    ensures exists sign, whole, fraction, exponent :: HasNumberParts(text, sign, whole, fraction, exponent)
  {
    var digits := if text != "" && text[0] == '-' then text[1..] else text;
    BehindWhole(text, digits);
    WholeInFront(digits);
    var cut := if digits[0] == '0' then 1 else DigitRun(digits);
    var fraction, exponent := PartsOfTail(digits[cut..]);
    CutApart(digits, cut, fraction + exponent);
    SignInFront(text, digits, digits[..cut], fraction, exponent);
  }

  lemma SignInFront(text: string, digits: string, whole: string, fraction: string, exponent: string)
    requires text != "" && digits == (if text[0] == '-' then text[1..] else text)
    requires digits == whole + (fraction + exponent)
    requires IsWhole(whole) && IsFractionPart(fraction) && IsExponentPart(exponent)
    ensures exists sign :: HasNumberParts(text, sign, whole, fraction, exponent)
  {
    assert text == (if text[0] == '-' then "-" else "") + digits;
    assert HasNumberParts(text, if text[0] == '-' then "-" else "", whole, fraction, exponent);
  }

  type NumberToken = text: string | IsNumber(text) witness "0"

  /** A JSON value. Objects are maps: the order of their members is not part of the value. */
  datatype Json = Null | Bool(truth: bool) | Number(token: NumberToken) | Text(text: string)
                | Array(items: seq<Json>) | Object(members: map<string, Json>)

  // ---------------------------------------------------------------- key order

  ghost predicate IsLeast(least: string, keys: set<string>) {
    least in keys && forall key :: key in keys ==> TextLe(least, key)
  }

  lemma {:induction false} FindLeast(keys: set<string>) returns (least: string)
    requires keys != {}
    ensures IsLeast(least, keys)
  {
    var some :| some in keys;
    var others := keys - {some};
    TextLeIsTotal(some, some);
    assert keys == others + {some};
    if others == {} {
      least := some;
    } else {
      var other := FindLeast(others);
      TextLeIsTotal(some, other);
      if TextLe(some, other) { SmallerIsLeast(some, other, others); }
      least := if TextLe(some, other) then some else other;
    }
  }

  lemma LeastExists(keys: set<string>)
    requires keys != {}
    ensures exists least :: IsLeast(least, keys)
  {
    var least := FindLeast(keys);
  }

  lemma SmallerIsLeast(smaller: string, least: string, keys: set<string>)
    requires IsLeast(least, keys) && TextLe(smaller, least)
    ensures forall key :: key in keys ==> TextLe(smaller, key)
  {
    forall key | key in keys ensures TextLe(smaller, key) { TextLeIsTransitive(smaller, least, key); }
  }

  ghost function Least(keys: set<string>): string
    requires keys != {}
    ensures IsLeast(Least(keys), keys)
  {
    LeastExists(keys);
    var least :| IsLeast(least, keys);
    least
  }

  /** `Object.keys(value).sort()`. */
  ghost function SortedKeys(keys: set<string>): seq<string>
    ensures forall key :: key in SortedKeys(keys) <==> key in keys
  {
    if keys == {} then [] else [Least(keys)] + SortedKeys(keys - {Least(keys)})
  }

  /** The keys come in strictly increasing order, so no two encodings list them differently. */
  lemma {:induction false} SortedKeysAreStrict(keys: set<string>)
    ensures IsStrict(SortedKeys(keys), TextLe)
  {
    if keys != {} {
      var least, rest := Least(keys), SortedKeys(keys - {Least(keys)});
      SortedKeysAreStrict(keys - {least});
      LeastThenRest(least, rest);
    }
  }

  lemma LeastThenRest(least: string, rest: seq<string>)
    requires IsStrict(rest, TextLe) && forall key :: key in rest ==> key != least && TextLe(least, key)
    ensures IsStrict([least] + rest, TextLe)
  {
    forall k | 0 <= k < |rest| ensures TextLe(least, rest[k]) && !TextLe(rest[k], least) {
      TextLeIsTotal(least, rest[k]);
    }
  }

  // ---------------------------------------------------------------- encoding

  function HexDigit(value: nat): char
    requires value < 16
  {
    "0123456789abcdef"[value]
  }

  /** One character of a string, as `JSON.stringify` writes it. */
  function EncodeChar(c: char): string {
    if c == '"' then "\\\"" else if c == '\\' then "\\\\"
    else if c == '\U{8}' then "\\b" else if c == '\U{C}' then "\\f"
    else if c == '\n' then "\\n" else if c == '\r' then "\\r" else if c == '\t' then "\\t"
    else if c < ' ' then "\\u00" + [HexDigit(c as nat / 16), HexDigit(c as nat % 16)]
    else [c]
  }

  /** Escapes are as short as the grammar allows, and nothing else is escaped: a quote, a backslash and five control
      characters have two characters, the other control characters have six, in lower case, and the rest stand for
      themselves. */
  lemma EscapesAreShort(c: char)
    ensures var code := c as int;
      if code in {34, 92, 8, 9, 10, 12, 13} then |EncodeChar(c)| == 2 && EncodeChar(c)[0] == '\\'
      else if code < 32 then
        |EncodeChar(c)| == 6 && EncodeChar(c)[..4] == "\\u00"
          && forall k :: 4 <= k < 6 ==> IsDigit(EncodeChar(c)[k]) || 'a' <= EncodeChar(c)[k] <= 'f'
      else EncodeChar(c) == [c]
  {
  }

  function EncodeChars(text: string): string {
    if text == "" then "" else EncodeChar(text[0]) + EncodeChars(text[1..])
  }

  function EncodeText(text: string): string {
    "\"" + EncodeChars(text) + "\""
  }

  /** `canonicalJson`. */
  ghost function Encode(value: Json): string
    decreases value, 2
  {
    match value
    case Null => "null"
    case Bool(truth) => if truth then "true" else "false"
    case Number(token) => token
    case Text(text) => EncodeText(text)
    case Array(items) => "[" + EncodeItems(items) + "]"
    case Object(members) => "{" + EncodeMembers(value, SortedKeys(members.Keys)) + "}"
  }

  ghost function EncodeItems(items: seq<Json>): string
    decreases items, 1
  {
    if items == [] then ""
    else Encode(items[0]) + (if |items| == 1 then "" else "," + EncodeItems(items[1..]))
  }

  ghost function EncodeMembers(value: Json, keys: seq<string>): string
    requires value.Object? && forall key :: key in keys ==> key in value.members
    decreases value, 1, |keys|
  {
    if keys == [] then ""
    else EncodeText(keys[0]) + ":" + Encode(value.members[keys[0]])
         + (if |keys| == 1 then "" else "," + EncodeMembers(value, keys[1..]))
  }

  // ---------------------------------------------------------------- parsing, by the grammar of RFC 8259

  function SkipBlanks(text: string): string
    ensures |SkipBlanks(text)| <= |text|
  {
    if text != "" && text[0] in " \t\n\r" then SkipBlanks(text[1..]) else text
  }

  predicate IsNumberChar(c: char) {
    IsDigit(c) || c == '-' || c == '+' || c == '.' || c == 'e' || c == 'E'
  }

  function NumberRun(text: string): nat
    ensures NumberRun(text) <= |text|
  {
    if text != "" && IsNumberChar(text[0]) then 1 + NumberRun(text[1..]) else 0
  }

  function HexValue(c: char): Option<nat> {
    if IsDigit(c) then Some(c as nat - '0' as nat)
    else if 'a' <= c <= 'f' then Some(c as nat - 'a' as nat + 10)
    else if 'A' <= c <= 'F' then Some(c as nat - 'A' as nat + 10)
    else None
  }

  /** Four hexadecimal digits: a code unit. */
  function ParseHex(text: string): Option<nat>
    ensures ParseHex(text).Some? ==> |text| >= 4 && ParseHex(text).value < 0x10000
  {
    if |text| < 4 || HexValue(text[0]).None? || HexValue(text[1]).None? || HexValue(text[2]).None?
      || HexValue(text[3]).None? then None
    else Some(((HexValue(text[0]).value * 16 + HexValue(text[1]).value) * 16 + HexValue(text[2]).value) * 16
              + HexValue(text[3]).value)
  }

  /** The escape behind a backslash: the character and what follows. Halves of surrogate pairs must come together. */
  function ParseEscape(text: string): Option<(char, string)>
    ensures ParseEscape(text).Some? ==> |ParseEscape(text).value.1| < |text|
  {
    if text == "" then None
    else if text[0] == '"' || text[0] == '\\' || text[0] == '/' then Some((text[0], text[1..]))
    else if text[0] == 'b' then Some(('\U{8}', text[1..]))
    else if text[0] == 'f' then Some(('\U{C}', text[1..]))
    else if text[0] == 'n' then Some(('\n', text[1..]))
    else if text[0] == 'r' then Some(('\r', text[1..]))
    else if text[0] == 't' then Some(('\t', text[1..]))
    else if text[0] != 'u' || ParseHex(text[1..]).None? then None
    else
      var unit, rest := ParseHex(text[1..]).value, text[5..];
      if unit < 0xD800 || 0xE000 <= unit then Some((unit as char, rest))
      else if unit < 0xDC00 && "\\u" <= rest && ParseHex(rest[2..]).Some?
        && 0xDC00 <= ParseHex(rest[2..]).value < 0xE000 then
        Some(((0x10000 + (unit - 0xD800) * 0x400 + (ParseHex(rest[2..]).value - 0xDC00)) as char, rest[6..]))
      else None
  }

  /** The inside of a string, behind its opening quote. */
  function ParseText(text: string): Option<(string, string)>
    ensures ParseText(text).Some? ==> |ParseText(text).value.1| < |text|
  {
    if text == "" || text[0] < ' ' then None
    else if text[0] == '"' then Some(("", text[1..]))
    else
      var first := if text[0] == '\\' then ParseEscape(text[1..]) else Some((text[0], text[1..]));
      if first.None? then None
      else match ParseText(first.value.1) case None => None case Some((more, rest)) => Some(([first.value.0] + more,
                                                                                             rest))
  }

  function ParseNumber(text: string): Option<(Json, string)>
    ensures ParseNumber(text).Some? ==> |ParseNumber(text).value.1| < |text|
  {
    var run := NumberRun(text);
    if run > 0 && IsNumber(text[..run]) then Some((Number(text[..run]), text[run..])) else None
  }

  function ParseValue(text: string): Option<(Json, string)>
    ensures ParseValue(text).Some? ==> |ParseValue(text).value.1| < |text|
    decreases |text|, 1
  {
    if "null" <= text then Some((Null, text[4..]))
    else if "true" <= text then Some((Bool(true), text[4..]))
    else if "false" <= text then Some((Bool(false), text[5..]))
    else if text == "" then None
    else if text[0] == '"' then
      match ParseText(text[1..]) case None => None case Some((inside, rest)) => Some((Text(inside), rest))
    else if text[0] == '[' then
      var inside := SkipBlanks(text[1..]);
      if "]" <= inside then Some((Array([]), inside[1..]))
      else match ParseItems(inside) case None => None case Some((items, rest)) => Some((Array(items), rest))
    else if text[0] == '{' then
      var inside := SkipBlanks(text[1..]);
      if "}" <= inside then Some((Object(map[]), inside[1..]))
      else match ParseMembers(inside, map[])
        case None => None
        case Some((members, rest)) => Some((Object(members), rest))
    else ParseNumber(text)
  }

  function ParseItems(text: string): Option<(seq<Json>, string)>
    ensures ParseItems(text).Some? ==> |ParseItems(text).value.1| < |text|
    decreases |text|, 2
  {
    match ParseValue(text)
    case None => None
    case Some((item, behind)) =>
      var rest := SkipBlanks(behind);
      if "]" <= rest then Some(([item], rest[1..]))
      else if "," <= rest then
        match ParseItems(SkipBlanks(rest[1..])) case None => None case Some((items, end)) => Some(([item] + items, end))
      else None
  }

  /** Key, colon and value of one member, and what comes behind them and any blanks. */
  function ParseMember(text: string): Option<(string, Json, string)>
    ensures ParseMember(text).Some? ==> |ParseMember(text).value.2| < |text|
    decreases |text|, 2
  {
    if text == "" || text[0] != '"' || ParseText(text[1..]).None? then None
    else
      var (key, behindKey) := ParseText(text[1..]).value;
      var colon := SkipBlanks(behindKey);
      if !(":" <= colon) then None
      else match ParseValue(SkipBlanks(colon[1..]))
        case None => None
        case Some((value, behind)) => Some((key, value, SkipBlanks(behind)))
  }

  /** Members are set one after the other, so the last of several with one key counts. */
  function ParseMembers(text: string, before: map<string, Json>): Option<(map<string, Json>, string)>
    ensures ParseMembers(text, before).Some? ==> |ParseMembers(text, before).value.1| < |text|
    decreases |text|, 3
  {
    match ParseMember(text)
    case None => None
    case Some((key, value, rest)) =>
      var members := before[key := value];
      if "}" <= rest then Some((members, rest[1..]))
      else if "," <= rest then ParseMembers(SkipBlanks(rest[1..]), members)
      else None
  }

  /** A whole document. */
  function Parse(text: string): Option<Json> {
    match ParseValue(SkipBlanks(text))
    case None => None
    case Some((value, rest)) => if SkipBlanks(rest) == "" then Some(value) else None
  }

  // ---------------------------------------------------------------- encodings read back

  lemma HexIsRead(value: nat)
    requires value < 16
    ensures HexValue(HexDigit(value)) == Some(value)
  {
    assert value < 10 ==> HexDigit(value) == ['0', '1', '2', '3', '4', '5', '6', '7', '8', '9'][value];
    assert value >= 10 ==> HexDigit(value) == ['a', 'b', 'c', 'd', 'e', 'f'][value - 10];
  }

  lemma ControlIsRead(c: char, rest: string)
    requires c < ' '
    ensures ParseEscape("u00" + [HexDigit(c as nat / 16), HexDigit(c as nat % 16)] + rest) == Some((c, rest))
  {
    var high, low := c as nat / 16, c as nat % 16;
    var text := "u00" + [HexDigit(high), HexDigit(low)] + rest;
    HexIsRead(high);
    HexIsRead(low);
    assert text[1..] == ['0', '0', HexDigit(high), HexDigit(low)] + rest;
    assert HexValue('0') == Some(0);
    assert ParseHex(text[1..]) == Some(high * 16 + low);
    assert text[5..] == rest;
  }

  lemma CharIsRead(c: char, rest: string)
    requires ParseText(rest).Some?
    ensures ParseText(EncodeChar(c) + rest) == Some(([c] + ParseText(rest).value.0, ParseText(rest).value.1))
  {
    var text := EncodeChar(c) + rest;
    if EncodeChar(c) == [c] {
      assert text[1..] == rest;
    } else {
      var escape := EncodeChar(c)[1..] + rest;
      assert text[0] == '\\' && text[1..] == escape;
      EscapeIsRead(c, rest);
    }
  }

  lemma EscapeIsRead(c: char, rest: string)
    requires EncodeChar(c) != [c]
    ensures EncodeChar(c) != "" && EncodeChar(c)[0] == '\\' && ParseEscape(EncodeChar(c)[1..] + rest) == Some((c, rest))
  {
    var escape := EncodeChar(c)[1..] + rest;
    if |EncodeChar(c)| == 2 {
      assert escape[1..] == rest;
    } else {
      assert EncodeChar(c)[1..] == "u00" + [HexDigit(c as nat / 16), HexDigit(c as nat % 16)];
      ControlIsRead(c, rest);
    }
  }

  lemma {:induction false} CharsAreRead(text: string, rest: string)
    ensures ParseText(EncodeChars(text) + ("\"" + rest)) == Some((text, rest))
  {
    if text == "" {
      assert EncodeChars(text) + ("\"" + rest) == "\"" + rest && ("\"" + rest)[1..] == rest;
    } else {
      CharsAreRead(text[1..], rest);
      CharsText(text, "\"" + rest);
      CharIsRead(text[0], EncodeChars(text[1..]) + ("\"" + rest));
      assert text == [text[0]] + text[1..];
    }
  }

  lemma CharsText(text: string, tail: string)
    requires text != ""
    ensures EncodeChars(text) + tail == EncodeChar(text[0]) + (EncodeChars(text[1..]) + tail)
  {
  }

  /** A whole string, quotes and all. */
  lemma TextIsRead(text: string, rest: string)
    ensures var encoded := EncodeText(text) + rest;
            encoded != "" && encoded[0] == '"' && ParseText(encoded[1..]) == Some((text, rest))
  {
    CharsAreRead(text, rest);
    assert (EncodeText(text) + rest)[1..] == EncodeChars(text) + ("\"" + rest);
  }

  lemma {:induction false} DigitRunIsDigits(text: string)
    ensures forall k :: 0 <= k < DigitRun(text) ==> IsDigit(text[k])
  {
    if text != "" && IsDigit(text[0]) { DigitRunIsDigits(text[1..]); }
  }

  lemma ExponentChars(text: string)
    requires IsExponent(text)
    ensures forall c :: c in text ==> IsNumberChar(c)
  {
    if text != "" {
      DigitRunIsDigits(text[2..]);
      DigitRunIsDigits(text[1..]);
    }
  }

  lemma FractionChars(text: string)
    requires IsFraction(text)
    ensures forall c :: c in text ==> IsNumberChar(c)
  {
    if text != "" && text[0] == '.' {
      var run := DigitRun(text[1..]);
      DigitRunIsDigits(text[1..]);
      ExponentChars(text[1 + run..]);
      assert text == "." + text[1..][..run] + text[1 + run..];
    } else {
      ExponentChars(text);
    }
  }

  lemma NumberChars(token: string)
    requires IsNumber(token)
    ensures forall c :: c in token ==> IsNumberChar(c)
  {
    var digits := if token[0] == '-' then token[1..] else token;
    var run := if digits[0] == '0' then 1 else DigitRun(digits);
    DigitRunIsDigits(digits);
    FractionChars(digits[run..]);
    assert digits == digits[..run] + digits[run..];
    assert token == (if token[0] == '-' then "-" else "") + digits;
  }

  lemma {:induction false} NumberRunEnds(token: string, rest: string)
    requires (forall c :: c in token ==> IsNumberChar(c)) && (rest == "" || !IsNumberChar(rest[0]))
    ensures NumberRun(token + rest) == |token|
  {
    if token == "" {
      assert token + rest == rest;
    } else {
      assert token[0] in token && (token + rest)[1..] == token[1..] + rest;
      NumberRunEnds(token[1..], rest);
    }
  }

  /** What follows a value inside a canonical encoding. */
  predicate Ends(rest: string) {
    rest == "" || rest[0] == ',' || rest[0] == ']' || rest[0] == '}'
  }

  lemma NumberIsRead(token: NumberToken, rest: string)
    requires Ends(rest)
    ensures ParseNumber(token + rest) == Some((Number(token), rest))
    ensures IsDigit(token[0]) || token[0] == '-'
  {
    NumberChars(token);
    NumberRunEnds(token, rest);
    assert (token + rest)[..|token|] == token && (token + rest)[|token|..] == rest;
  }

  lemma NoKeyword(text: string)
    requires text != "" && text[0] != 'n' && text[0] != 't' && text[0] != 'f'
    ensures !("null" <= text) && !("true" <= text) && !("false" <= text)
  {
  }

  lemma KeywordIsRead(word: string, rest: string)
    requires word == "null" || word == "true" || word == "false"
    ensures ParseValue(word + rest) == Some((if word == "null" then Null else Bool(word == "true"), rest))
  {
    var text := word + rest;
    assert text[..|word|] == word && text[|word|..] == rest;
    assert word <= text;
    assert text[0] == word[0];
  }

  // One step of the parser each, whatever the text came from.

  lemma ReadString(text: string)
    requires text != "" && text[0] == '"' && ParseText(text[1..]).Some?
    ensures ParseValue(text) == Some((Text(ParseText(text[1..]).value.0), ParseText(text[1..]).value.1))
  {
    NoKeyword(text);
  }

  lemma ReadNumber(text: string)
    requires text != "" && (IsDigit(text[0]) || text[0] == '-')
    ensures ParseValue(text) == ParseNumber(text)
  {
    NoKeyword(text);
  }

  lemma ReadArray(inside: string)
    requires SkipBlanks(inside) == inside
    ensures "]" <= inside ==> ParseValue("[" + inside) == Some((Array([]), inside[1..]))
    ensures !("]" <= inside) && ParseItems(inside).Some? ==>
              ParseValue("[" + inside) == Some((Array(ParseItems(inside).value.0), ParseItems(inside).value.1))
  {
    NoKeyword("[" + inside);
    assert ("[" + inside)[1..] == inside;
  }

  lemma ReadObject(inside: string)
    requires SkipBlanks(inside) == inside
    ensures "}" <= inside ==> ParseValue("{" + inside) == Some((Object(map[]), inside[1..]))
    ensures !("}" <= inside) && ParseMembers(inside, map[]).Some? ==>
              ParseValue("{" + inside) == Some((Object(ParseMembers(inside, map[]).value.0),
                                                ParseMembers(inside, map[]).value.1))
  {
    NoKeyword("{" + inside);
    assert ("{" + inside)[1..] == inside;
  }

  lemma ReadLastItem(text: string, item: Json, rest: string)
    requires ParseValue(text) == Some((item, "]" + rest))
    ensures ParseItems(text) == Some(([item], rest))
  {
    assert ("]" + rest)[1..] == rest;
  }

  lemma ReadNextItem(text: string, item: Json, more: string)
    requires ParseValue(text) == Some((item, "," + more)) && SkipBlanks(more) == more && ParseItems(more).Some?
    ensures ParseItems(text) == Some(([item] + ParseItems(more).value.0, ParseItems(more).value.1))
  {
    assert ("," + more)[1..] == more;
  }

  lemma ReadLastMember(text: string, key: string, value: Json, rest: string, before: map<string, Json>)
    requires ParseMember(text) == Some((key, value, "}" + rest))
    ensures ParseMembers(text, before) == Some((before[key := value], rest))
  {
    assert ("}" + rest)[1..] == rest;
  }

  lemma ReadNextMember(text: string, key: string, value: Json, more: string, before: map<string, Json>)
    requires ParseMember(text) == Some((key, value, "," + more)) && SkipBlanks(more) == more
    ensures ParseMembers(text, before) == ParseMembers(more, before[key := value])
  {
    assert ("," + more)[0] == ',' && ("," + more)[1..] == more;
    assert !("}" <= "," + more) && "," <= "," + more;
  }

  /** No encoding starts with a blank or a closing bracket. */
  lemma FirstChar(value: Json, rest: string)
    ensures var text := Encode(value) + rest; Encode(value) != "" && SkipBlanks(text) == text && text[0] != ']'
                                              && text[0] != '}'
  {
    if value.Number? { NumberChars(value.token); assert value.token[0] in value.token; }
  }

  lemma {:induction false} ValueIsRead(value: Json, rest: string)
    requires Ends(rest)
    ensures ParseValue(Encode(value) + rest) == Some((value, rest))
    decreases value, 2
  {
    match value
    case Null => KeywordIsRead("null", rest);
    case Bool(truth) => KeywordIsRead(if truth then "true" else "false", rest);
    case Number(token) =>
      NumberIsRead(token, rest);
      ReadNumber(token + rest);
    case Text(inside) =>
      TextIsRead(inside, rest);
      ReadString(EncodeText(inside) + rest);
    case Array(items) => ArrayIsRead(value, rest);
    case Object(members) => ObjectIsRead(value, rest);
  }

  lemma {:induction false} ArrayIsRead(value: Json, rest: string)
    requires value.Array?
    ensures ParseValue(Encode(value) + rest) == Some((value, rest))
    decreases value, 1
  {
    var inside := EncodeItems(value.items) + ("]" + rest);
    assert Encode(value) + rest == "[" + inside;
    if value.items == [] {
      assert inside == "]" + rest && inside[1..] == rest;
    } else {
      ItemsStart(value.items, "]" + rest);
      ItemsAreRead(value.items, rest);
    }
    ReadArray(inside);
  }

  lemma {:induction false} ObjectIsRead(value: Json, rest: string)
    requires value.Object?
    ensures ParseValue(Encode(value) + rest) == Some((value, rest))
    decreases value, 1
  {
    var keys := SortedKeys(value.members.Keys);
    var inside := EncodeMembers(value, keys) + ("}" + rest);
    assert Encode(value) + rest == "{" + inside;
    SetAllGivesMembers(value, keys, map[]);
    assert SetAll(value, keys, map[]) == value.members;
    if keys == [] {
      assert inside == "}" + rest && inside[1..] == rest;
    } else {
      MembersAreRead(value, keys, map[], rest);
    }
    ReadObject(inside);
  }

  lemma ItemsText(items: seq<Json>, rest: string)
    requires items != []
    ensures EncodeItems(items) + ("]" + rest)
            == Encode(items[0]) + (if |items| == 1 then "]" + rest else "," + (EncodeItems(items[1..]) + ("]" + rest)))
  {
  }

  lemma ItemsStart(items: seq<Json>, rest: string)
    requires items != []
    ensures var text := EncodeItems(items) + rest; SkipBlanks(text) == text && !("]" <= text)
  {
    var more := if |items| == 1 then "" else "," + EncodeItems(items[1..]);
    FirstChar(items[0], more + rest);
    assert EncodeItems(items) + rest == Encode(items[0]) + (more + rest);
  }

  lemma {:induction false} ItemsAreRead(items: seq<Json>, rest: string)
    requires items != []
    ensures ParseItems(EncodeItems(items) + ("]" + rest)) == Some((items, rest))
    decreases items, 1
  {
    ItemsText(items, rest);
    if |items| == 1 {
      ValueIsRead(items[0], "]" + rest);
      LastItemIsRead(items, Encode(items[0]), rest);
    } else {
      var more := EncodeItems(items[1..]) + ("]" + rest);
      ItemsAreRead(items[1..], rest);
      ItemsStart(items[1..], "]" + rest);
      ValueIsRead(items[0], "," + more);
      NextItemIsRead(items, Encode(items[0]), more, rest);
    }
  }

  lemma LastItemIsRead(items: seq<Json>, text: string, rest: string)
    requires |items| == 1 && ParseValue(text + ("]" + rest)) == Some((items[0], "]" + rest))
    ensures ParseItems(text + ("]" + rest)) == Some((items, rest))
  {
    ReadLastItem(text + ("]" + rest), items[0], rest);
    assert items == [items[0]];
  }

  lemma NextItemIsRead(items: seq<Json>, text: string, more: string, rest: string)
    requires |items| > 1 && ParseItems(more) == Some((items[1..], rest)) && SkipBlanks(more) == more
    requires ParseValue(text + ("," + more)) == Some((items[0], "," + more))
    ensures ParseItems(text + ("," + more)) == Some((items, rest))
  {
    ReadNextItem(text + ("," + more), items[0], more);
    assert items == [items[0]] + items[1..];
  }

  /** The members set by the parser, one key after the other. */
  ghost function SetAll(value: Json, keys: seq<string>, before: map<string, Json>): map<string, Json>
    requires value.Object? && forall key :: key in keys ==> key in value.members
  {
    if keys == [] then before else SetAll(value, keys[1..], before[keys[0] := value.members[keys[0]]])
  }

  lemma {:induction false} SetAllGivesMembers(value: Json, keys: seq<string>, before: map<string, Json>)
    requires value.Object? && forall key :: key in keys ==> key in value.members
    requires forall key :: key in before ==> key in value.members && before[key] == value.members[key]
    ensures var after := SetAll(value, keys, before);
            && (forall key :: key in after <==> key in keys || key in before)
            && (forall key :: key in after ==> key in value.members && after[key] == value.members[key])
  {
    if keys != [] { SetAllGivesMembers(value, keys[1..], before[keys[0] := value.members[keys[0]]]); }
  }

  lemma MembersText(value: Json, keys: seq<string>, rest: string)
    requires value.Object? && keys != [] && forall key :: key in keys ==> key in value.members
    ensures EncodeMembers(value, keys) + ("}" + rest)
            == EncodeText(keys[0]) + (":" + (Encode(value.members[keys[0]])
               + (if |keys| == 1 then "}" + rest else "," + (EncodeMembers(value, keys[1..]) + ("}" + rest)))))
  {
  }

  lemma {:induction false} MemberIsRead(value: Json, key: string, more: string)
    requires value.Object? && key in value.members && Ends(more) && SkipBlanks(more) == more
    ensures var text := EncodeText(key) + (":" + (Encode(value.members[key]) + more));
            ParseMember(text) == Some((key, value.members[key], more)) && SkipBlanks(text) == text && !("}" <= text)
    decreases value, 0
  {
    var behindKey := ":" + (Encode(value.members[key]) + more);
    TextIsRead(key, behindKey);
    assert behindKey[1..] == Encode(value.members[key]) + more;
    FirstChar(value.members[key], more);
    ValueIsRead(value.members[key], more);
  }

  lemma {:induction false} MembersAreRead(value: Json, keys: seq<string>, before: map<string, Json>, rest: string)
    requires value.Object? && keys != [] && forall key :: key in keys ==> key in value.members
    ensures var text := EncodeMembers(value, keys) + ("}" + rest);
            ParseMembers(text, before) == Some((SetAll(value, keys, before), rest)) && SkipBlanks(text) == text
              && !("}" <= text)
    decreases value, 1, |keys|
  {
    MembersText(value, keys, rest);
    var text, key := EncodeMembers(value, keys) + ("}" + rest), keys[0];
    if |keys| == 1 {
      MemberIsRead(value, key, "}" + rest);
      ReadLastMember(text, key, value.members[key], rest, before);
      LastSet(value, keys, before);
    } else {
      var more := EncodeMembers(value, keys[1..]) + ("}" + rest);
      MemberIsRead(value, key, "," + more);
      MembersAreRead(value, keys[1..], before[key := value.members[key]], rest);
      ReadNextMember(text, key, value.members[key], more, before);
    }
  }

  lemma LastSet(value: Json, keys: seq<string>, before: map<string, Json>)
    requires value.Object? && |keys| == 1 && keys[0] in value.members
    ensures SetAll(value, keys, before) == before[keys[0] := value.members[keys[0]]]
  {
    assert keys[1..] == [];
  }

  /** Parsing undoes encoding, for every value. */
  lemma ParseUndoesEncode(value: Json)
    ensures Parse(Encode(value)) == Some(value)
  {
    FirstChar(value, "");
    ValueIsRead(value, "");
    assert Encode(value) + "" == Encode(value);
  }

  /** The canonical encoding is unambiguous. */
  lemma EncodeIsInjective(one: Json, other: Json)
    ensures Encode(one) == Encode(other) <==> one == other
  {
    ParseUndoesEncode(one);
    ParseUndoesEncode(other);
  }
}
