/** XML escaping in `src/machine/windows.layer.ts`: five replacement passes each way. */
module Xml {
  import opened Texts

  function EscapeXml(value: string): string {
    ReplaceAll(ReplaceAll(ReplaceAll(ReplaceAll(ReplaceAll(
      value, "&", "&amp;"), "<", "&lt;"), ">", "&gt;"), "\"", "&quot;"), "'", "&apos;")
  }

  function DecodeXml(value: string): string {
    ReplaceAll(ReplaceAll(ReplaceAll(ReplaceAll(ReplaceAll(
      value, "&apos;", "'"), "&quot;", "\""), "&gt;", ">"), "&lt;", "<"), "&amp;", "&")
  }

  /** The escaped characters in the order the passes take them, and what replaces each. */
  function Special(pass: nat): string
    requires pass < 5
  {
    ["&", "<", ">", "\"", "'"][pass]
  }

  function Entity(pass: nat): string
    requires pass < 5
  {
    ["&amp;", "&lt;", "&gt;", "&quot;", "&apos;"][pass]
  }

  /** One character after the first `passes` escaping passes. */
  function EscapedChar(c: char, passes: nat): string
    requires passes <= 5
  {
    if passes == 0 then [c] else if [c] == Special(passes - 1) then Entity(passes - 1) else EscapedChar(c, passes - 1)
  }

  /** Reference definition of escaping: character by character. */
  function Escaped(value: string, passes: nat): string
    requires passes <= 5
  {
    if value == "" then "" else EscapedChar(value[0], passes) + Escaped(value[1..], passes)
  }

  lemma {:induction false} EscapedByNoPass(value: string)
    ensures Escaped(value, 0) == value
  {
    if value != "" {
      EscapedByNoPass(value[1..]);
      assert value == [value[0]] + value[1..];
    }
  }

  /** Entities keep apart from each other and from the characters later passes look for. */
  lemma EntitiesAreApart(made: nat, pass: nat)
    requires made < 5 && pass < 5 && made != pass
    ensures StartsNowhere(Entity(made), Entity(pass))
    ensures pass > 0 ==> StartsNowhere(Entity(made), Special(pass))
  {
    if pass > 0 { StartsNowhereWithout(Entity(made), Special(pass)); }
    var inside := ["amp;", "lt;", "gt;", "quot;", "apos;"][made];
    assert Entity(made)[1..] == inside;
    StartsNowhereWithout(inside, Entity(pass));
    EntitiesDiffer(made, pass);
  }

  lemma EntitiesDiffer(made: nat, pass: nat)
    requires made < 5 && pass < 5 && made != pass
    ensures Differs(Entity(made), Entity(pass))
  {
    assert "&amp;"[1..] == "amp;" && "&apos;"[1..] == "apos;" && "amp;"[1..] == "mp;" && "apos;"[1..] == "pos;";
  }

  /** What one character becomes: an entity of the passes made, or still itself, and then none of their characters. */
  lemma {:induction false} EscapedCharCases(c: char, passes: nat) returns (made: nat)
    requires passes <= 5
    ensures made <= passes
    ensures made < passes ==> [c] == Special(made) && EscapedChar(c, passes) == Entity(made)
    ensures made == passes ==> EscapedChar(c, passes) == [c] && forall k :: 0 <= k < passes ==> [c] != Special(k)
  {
    if passes == 0 || [c] == Special(passes - 1) {
      made := if passes == 0 then 0 else passes - 1;
    } else {
      made := EscapedCharCases(c, passes - 1);
      if made == passes - 1 { made := passes; }
    }
  }

  /** A pass turns its character into its entity and leaves everything else alone. */
  lemma CharPass(c: char, passes: nat, rest: string)
    requires passes < 5
    ensures ReplaceAll(EscapedChar(c, passes) + rest, Special(passes), Entity(passes))
            == EscapedChar(c, passes + 1) + ReplaceAll(rest, Special(passes), Entity(passes))
  {
    var made := EscapedCharCases(c, passes);
    if made < passes {
      EntitiesAreApart(made, passes);
      assert Special(made) != Special(passes);
      ReplaceSkips(Entity(made), rest, Special(passes), Entity(passes));
    } else if [c] == Special(passes) {
      ReplaceHere(Special(passes), rest, Entity(passes));
    } else {
      ReplaceSkips([c], rest, Special(passes), Entity(passes));
    }
  }

  lemma CharUnpass(c: char, passes: nat, rest: string)
    requires passes < 5
    ensures ReplaceAll(EscapedChar(c, passes + 1) + rest, Entity(passes), Special(passes))
            == EscapedChar(c, passes) + ReplaceAll(rest, Entity(passes), Special(passes))
  {
    var made := EscapedCharCases(c, passes);
    if made < passes {
      EntitiesAreApart(made, passes);
      assert Special(made) != Special(passes);
      ReplaceSkips(Entity(made), rest, Entity(passes), Special(passes));
    } else if [c] == Special(passes) {
      ReplaceHere(Entity(passes), rest, Special(passes));
    } else {
      assert [c] != Special(0);
      ReplaceSkips([c], rest, Entity(passes), Special(passes));
    }
  }

  lemma {:induction false} EscapingPass(value: string, passes: nat)
    requires passes < 5
    ensures ReplaceAll(Escaped(value, passes), Special(passes), Entity(passes)) == Escaped(value, passes + 1)
    ensures ReplaceAll(Escaped(value, passes + 1), Entity(passes), Special(passes)) == Escaped(value, passes)
  {
    if value != "" {
      EscapingPass(value[1..], passes);
      CharPass(value[0], passes, Escaped(value[1..], passes));
      CharUnpass(value[0], passes, Escaped(value[1..], passes + 1));
    }
  }

  /** The five predefined entities of XML 1.0 (section 4.6), and everything else as it is. */
  lemma EscapedCharIsTold(c: char)
    ensures EscapedChar(c, 5)
            == if c == '<' then "&lt;" else if c == '>' then "&gt;" else if c == '&' then "&amp;"
               else if c == '"' then "&quot;" else if c == '\'' then "&apos;" else [c]
  {
    var made := EscapedCharCases(c, 5);
    assert made < 5 ==> [c][0] == Special(made)[0];
    assert made == 5 ==> [c] != Special(0) && [c] != Special(1) && [c] != Special(2) && [c] != Special(3)
                         && [c] != Special(4);
  }

  /** The five passes amount to escaping each character once. */
  lemma EscapeXmlIsEscaped(value: string)
    ensures EscapeXml(value) == Escaped(value, 5)
  {
    EscapedByNoPass(value);
    EscapingPass(value, 0);
    EscapingPass(value, 1);
    EscapingPass(value, 2);
    EscapingPass(value, 3);
    EscapingPass(value, 4);
  }

  /** Decoding undoes escaping, for every text. */
  lemma DecodeUndoesEscape(value: string)
    ensures DecodeXml(EscapeXml(value)) == value
  {
    EscapeXmlIsEscaped(value);
    EscapedByNoPass(value);
    EscapingPass(value, 0);
    EscapingPass(value, 1);
    EscapingPass(value, 2);
    EscapingPass(value, 3);
    EscapingPass(value, 4);
  }

  // ---------------------------------------------------------------- trimming

  lemma SpaceIsNotEscaped(c: char)
    ensures IsSpace(c) ==> EscapedChar(c, 5) == [c]
    ensures !IsSpace(c) ==> var text := EscapedChar(c, 5); text != "" && !IsSpace(text[0]) && !IsSpace(text[|text| - 1])
  {
    var made := EscapedCharCases(c, 5);
  }

  lemma {:induction false} TrimStartOfEscaped(value: string)
    ensures TrimStart(Escaped(value, 5)) == Escaped(TrimStart(value), 5)
  {
    if value != "" {
      SpaceIsNotEscaped(value[0]);
      if IsSpace(value[0]) { TrimStartOfEscaped(value[1..]); }
    }
  }

  lemma {:induction false} EscapedOfLonger(value: string, last: char)
    ensures Escaped(value + [last], 5) == Escaped(value, 5) + EscapedChar(last, 5)
  {
    assert (value + [last])[0] == (if value == "" then last else value[0]);
    assert (value + [last])[1..] == (if value == "" then "" else value[1..] + [last]);
    if value != "" { EscapedOfLonger(value[1..], last); }
  }

  lemma {:induction false} TrimEndOfEscaped(value: string)
    ensures TrimEnd(Escaped(value, 5)) == Escaped(TrimEnd(value), 5)
  {
    if value != "" {
      var shorter, last := value[..|value| - 1], value[|value| - 1];
      assert value == shorter + [last];
      EscapedOfLonger(shorter, last);
      SpaceIsNotEscaped(last);
      if IsSpace(last) {
        assert Escaped(value, 5)[..|Escaped(value, 5)| - 1] == Escaped(shorter, 5);
        TrimEndOfEscaped(shorter);
      }
    }
  }

  /** What a trimmed, decoded element says of the escaped value in it: the value, trimmed. */
  lemma EscapedValueIsTrimmed(value: string)
    ensures DecodeXml(Trim(EscapeXml(value))) == Trim(value)
  {
    EscapeXmlIsEscaped(value);
    TrimStartOfEscaped(value);
    TrimEndOfEscaped(TrimStart(value));
    EscapeXmlIsEscaped(Trim(value));
    DecodeUndoesEscape(Trim(value));
  }

  lemma {:induction false} EscapedHasNoBracket(value: string)
    ensures '<' !in Escaped(value, 5) && '>' !in Escaped(value, 5)
  {
    if value != "" {
      EscapedHasNoBracket(value[1..]);
      var made := EscapedCharCases(value[0], 5);
      assert made == 5 ==> [value[0]] != Special(1) && [value[0]] != Special(2);
      assert '<' !in EscapedChar(value[0], 5) && '>' !in EscapedChar(value[0], 5);
    }
  }
}
