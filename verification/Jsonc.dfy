/** Stripping JSONC (`src/profile/profile-codec.ts`): the two loops are proved against a lexer that cuts
    the text into string literals, comments and single characters. */
module Jsonc {
  import opened Options
  import opened Texts

  // ---------------------------------------------------------------- the lexical reference

  /** A string literal with its quotes, a comment with its delimiters, or one other character. */
  datatype Token = Literal(text: string) | Comment(text: string) | Other(c: char) {
    function Source(): string {
      match this
      case Literal(text) => text
      case Comment(text) => text
      case Other(c) => [c]
    }
  }

  function Source(tokens: seq<Token>): string {
    if tokens == [] then "" else tokens[0].Source() + Source(tokens[1..])
  }

  /** How much of `text` still belongs to a string literal that is open, closing quote included. */
  function OpenString(text: string, escaped: bool): nat
    ensures OpenString(text, escaped) <= |text|
  {
    if text == "" then 0
    else if escaped then 1 + OpenString(text[1..], false)
    else if text[0] == '\\' then 1 + OpenString(text[1..], true)
    else if text[0] == '"' then 1
    else 1 + OpenString(text[1..], false)
  }

  /** Up to the next line feed, which is not part of a line comment. */
  function LineRest(text: string): nat
    ensures LineRest(text) <= |text|
  {
    if text == "" || text[0] == '\n' then 0 else 1 + LineRest(text[1..])
  }

  /** Up to and including the next comment end. */
  function BlockRest(text: string): Option<nat>
    ensures BlockRest(text).Some? ==> BlockRest(text).value <= |text|
  {
    if |text| < 2 then None
    else if text[0] == '*' && text[1] == '/' then Some(2)
    else match BlockRest(text[1..]) case None => None case Some(n) => Some(n + 1)
  }

  /** A line comment ends before the first line feed, or with the text. */
  lemma {:induction false} LineEndsAtFeed(text: string)
    ensures forall k :: 0 <= k < LineRest(text) ==> text[k] != '\n'
    ensures LineRest(text) < |text| ==> text[LineRest(text)] == '\n'
  {
    if text != "" && text[0] != '\n' {
      LineEndsAtFeed(text[1..]);
      assert forall k :: 0 < k < LineRest(text) ==> text[k] == text[1..][k - 1];
    }
  }

  ghost predicate EndsBlock(text: string, k: int) {
    2 <= k <= |text| && text[k - 2] == '*' && text[k - 1] == '/'
  }

  /** A block comment ends behind the first star and slash, and does not end where there are none. */
  lemma {:induction false} BlockEndsAtFirst(text: string)
    ensures BlockRest(text).None? ==> forall k :: !EndsBlock(text, k)
    ensures BlockRest(text).Some?
      ==> EndsBlock(text, BlockRest(text).value) && forall k :: k < BlockRest(text).value ==> !EndsBlock(text, k)
  {
    if |text| >= 2 && !(text[0] == '*' && text[1] == '/') {
      BlockEndsAtFirst(text[1..]);
      forall k ensures EndsBlock(text, k) <==> EndsBlock(text[1..], k - 1) {
        if 3 <= k <= |text| { assert text[1..][k - 3] == text[k - 2] && text[1..][k - 2] == text[k - 1]; }
      }
    }
  }

  /** The first token, or None for a block comment that does not end. */
  function First(text: string): Option<Token>
    requires text != ""
    ensures First(text).Some?
      ==> 0 < |First(text).value.Source()| <= |text|
          && First(text).value.Source() == text[..|First(text).value.Source()|]
  {
    if text[0] == '"' then Some(Literal(text[..1 + OpenString(text[1..], false)]))
    else if "//" <= text then Some(Comment(text[..LineRest(text)]))
    else if "/*" <= text then match BlockRest(text[2..]) case None => None case Some(n) => Some(Comment(text[..2 + n]))
    else Some(Other(text[0]))
  }

  function Lex(text: string): Option<seq<Token>> {
    if text == "" then Some([])
    else match First(text)
      case None => None
      case Some(token) => Before(token, Lex(text[|token.Source()|..]))
  }

  function Before(token: Token, rest: Option<seq<Token>>): Option<seq<Token>> {
    match rest case None => None case Some(tokens) => Some([token] + tokens)
  }

  lemma SourceOf(token: Token, rest: seq<Token>)
    ensures Source([token] + rest) == token.Source() + Source(rest)
  {
    assert ([token] + rest)[1..] == rest;
  }

  /** The tokens are the text, nothing more and nothing less. */
  lemma {:induction false} LexIsFaithful(text: string)
    ensures Lex(text).Some? ==> Source(Lex(text).value) == text
  {
    if text != "" && First(text).Some? {
      var token := First(text).value;
      var behind := text[|token.Source()|..];
      LexIsFaithful(behind);
      if Lex(behind).Some? { SourceOf(token, Lex(behind).value); }
      assert text == token.Source() + behind;
    }
  }

  // ---------------------------------------------------------------- what stripping means

  /** Every comment becomes one space. */
  function Blanked(tokens: seq<Token>): seq<Token> {
    if tokens == [] then []
    else [if tokens[0].Comment? then Other(' ') else tokens[0]] + Blanked(tokens[1..])
  }

  /** The first token that is not white space. */
  function NextSolid(tokens: seq<Token>): Option<Token> {
    if tokens == [] then None
    else if tokens[0].Other? && IsSpace(tokens[0].c) then NextSolid(tokens[1..])
    else Some(tokens[0])
  }

  /** A comma with nothing but white space between it and a closing bracket. */
  predicate IsTrailing(tokens: seq<Token>) {
    && tokens != [] && tokens[0] == Other(',')
    && (NextSolid(tokens[1..]) == Some(Other('}')) || NextSolid(tokens[1..]) == Some(Other(']')))
  }

  function WithoutTrailing(tokens: seq<Token>): seq<Token> {
    if tokens == [] then []
    else if IsTrailing(tokens) then WithoutTrailing(tokens[1..])
    else [tokens[0]] + WithoutTrailing(tokens[1..])
  }

  function Stripped(text: string): Option<string> {
    match Lex(text) case None => None case Some(tokens) => Some(Source(WithoutTrailing(Blanked(tokens))))
  }

  // ---------------------------------------------------------------- the first loop

  /** What the first loop still has to write, for the text ahead of it. */
  function BlankedRest(text: string): Option<string> {
    match Lex(text) case None => None case Some(tokens) => Some(Source(Blanked(tokens)))
  }

  function Prefixed(written: string, rest: Option<string>): Option<string> {
    match rest case None => None case Some(text) => Some(written + text)
  }

  /** Inside a string literal the rest of the literal is copied. */
  function BlankedInside(text: string, inString: bool, escaped: bool): Option<string> {
    if inString then var n := OpenString(text, escaped); Prefixed(text[..n], BlankedRest(text[n..]))
    else BlankedRest(text)
  }

  lemma BlankedStep(text: string)
    requires text != ""
    ensures First(text).None? ==> BlankedRest(text).None?
    ensures First(text).Some? ==>
              var token := First(text).value;
              BlankedRest(text) == Prefixed(if token.Comment? then " "
                                          else token.Source(), BlankedRest(text[|token.Source()|..]))
  {
    if First(text).Some? {
      var token := First(text).value;
      var rest := Lex(text[|token.Source()|..]);
      if rest.Some? {
        assert ([token] + rest.value)[1..] == rest.value;
        var blank := if token.Comment? then Other(' ') else token;
        assert ([blank] + Blanked(rest.value))[1..] == Blanked(rest.value);
      }
    }
  }

  lemma BehindTwice(first: string, second: string, rest: Option<string>)
    ensures Prefixed(first, Prefixed(second, rest)) == Prefixed(first + second, rest)
    ensures Prefixed("", rest) == rest
  {
    if rest.Some? {
      assert first + (second + rest.value) == first + second + rest.value && "" + rest.value == rest.value;
    }
  }

  // One round of the loop each, for what has been written and what is ahead.

  lemma CopyInside(text: string, i: nat, escaped: bool, out: string)
    requires i < |text|
    ensures Prefixed(out, BlankedInside(text[i..], true, escaped))
            == Prefixed(out + [text[i]],
                      BlankedInside(text[i + 1..], escaped || text[i] != '"', !escaped && text[i] == '\\'))
  {
    var ahead := text[i..];
    var n := OpenString(ahead, escaped);
    assert ahead[1..] == text[i + 1..];
    assert ahead[..n] == [text[i]] + ahead[1..][..n - 1] && ahead[n..] == ahead[1..][n - 1..];
    BehindTwice([text[i]], ahead[1..][..n - 1], BlankedRest(ahead[n..]));
    BehindTwice(out, [text[i]], BlankedInside(text[i + 1..], escaped || text[i] != '"', !escaped && text[i] == '\\'));
  }

  lemma OpenQuote(text: string, i: nat, out: string)
    requires i < |text| && text[i] == '"'
    ensures Prefixed(out, BlankedRest(text[i..]))
            == Prefixed(out + [text[i]], BlankedInside(text[i + 1..], true, false))
  {
    var ahead := text[i..];
    BlankedStep(ahead);
    var n := OpenString(ahead[1..], false);
    assert ahead[1..] == text[i + 1..];
    assert ahead[..1 + n] == [text[i]] + ahead[1..][..n] && ahead[1 + n..] == ahead[1..][n..];
    BehindTwice([text[i]], ahead[1..][..n], BlankedRest(ahead[1 + n..]));
    BehindTwice(out, [text[i]], BlankedInside(text[i + 1..], true, false));
  }

  lemma CopyOutside(text: string, i: nat, written: string, behind: nat, out: string)
    requires i < |text| && First(text[i..]).Some? && behind == i + |First(text[i..]).value.Source()|
    requires written == if First(text[i..]).value.Comment? then " " else First(text[i..]).value.Source()
    ensures Prefixed(out, BlankedRest(text[i..])) == Prefixed(out + written, BlankedRest(text[behind..]))
  {
    BlankedStep(text[i..]);
    assert text[i..][behind - i..] == text[behind..];
    BehindTwice(out, written, BlankedRest(text[behind..]));
  }

  lemma NothingAhead(inString: bool, escaped: bool, out: string)
    ensures Prefixed(out, BlankedInside("", inString, escaped)) == Some(out)
  {
    assert BlankedRest("") == Some("") && out + "" == out;
    BehindTwice("", "", BlankedRest(""));
  }

  /** The loop that skips a line comment. */
  method SkipLine(text: string, start: nat) returns (i: nat)
    requires start <= |text|
    ensures i == start + LineRest(text[start..])
  {
    i := start;
    while i < |text| && text[i] != '\n'
      invariant start <= i <= |text| && start + LineRest(text[start..]) == i + LineRest(text[i..])
    {
      assert text[i..][1..] == text[i + 1..];
      i := i + 1;
    }
  }

  /** The loop that looks for the end of a block comment. */
  method SkipBlock(text: string, start: nat) returns (end: Option<nat>)
    requires start <= |text|
    ensures match BlockRest(text[start..]) case None => end.None? case Some(n) => end == Some(start + n)
  {
    var i := start;
    while i + 1 < |text|
      invariant start <= i <= |text|
      invariant match BlockRest(text[i..])
                case None => BlockRest(text[start..]).None?
                case Some(n) => BlockRest(text[start..]) == Some(i - start + n)
    {
      assert text[i..][1..] == text[i + 1..];
      if text[i] == '*' && text[i + 1] == '/' { return Some(i + 2); }
      i := i + 1;
    }
    return None;
  }

  /** Outside strings: a comment, or one character. */
  method OutsideString(text: string, i: nat) returns (written: string, behind: Option<nat>)
    requires i < |text| && text[i] != '"'
    ensures match First(text[i..])
            case None => behind.None?
            case Some(token) => behind == Some(i + |token.Source()|) && written == if token.Comment? then " "
                                                                                   else token.Source()
  {
    var ch, next := text[i], if i + 1 < |text| then [text[i + 1]] else "";
    assert "//" <= text[i..] <==> ch == '/' && next == "/";
    assert "/*" <= text[i..] <==> ch == '/' && next == "*";
    if ch == '/' && next == "/" {
      var end := SkipLine(text, i);
      return " ", Some(end);
    }
    if ch == '/' && next == "*" {
      behind := SkipBlock(text, i + 2);
      assert text[i..][2..] == text[i + 2..];
      return " ", behind;
    }
    return [ch], Some(i + 1);
  }

  method StripComments(text: string) returns (result: Option<string>)
    ensures result == BlankedRest(text)
  {
    var out, i, inString, stringEscape := "", 0, false, false;
    assert text[0..] == text;
    BehindTwice("", "", BlankedRest(text));
    while i < |text|
      invariant i <= |text|
      invariant Prefixed(out, BlankedInside(text[i..], inString, stringEscape)) == BlankedRest(text)
      invariant !inString ==> !stringEscape
    {
      var ch := text[i];
      if inString {
        CopyInside(text, i, stringEscape, out);
        out := out + [ch];
        if stringEscape { stringEscape := false; }
        else if ch == '\\' { stringEscape := true; }
        else if ch == '"' { inString := false; }
        i := i + 1;
      } else if ch == '"' {
        OpenQuote(text, i, out);
        inString := true;
        out := out + [ch];
        i := i + 1;
      } else {
        var written, behind := OutsideString(text, i);
        if behind.None? { BlankedStep(text[i..]); return None; }
        CopyOutside(text, i, written, behind.value, out);
        out := out + written;
        i := behind.value;
      }
    }
    assert text[i..] == "";
    NothingAhead(inString, stringEscape, out);
    return Some(out);
  }

  // ---------------------------------------------------------------- token lists that lex to themselves

  /** The string literal that is open comes to its closing quote. */
  predicate Closes(text: string, escaped: bool) {
    text != "" && (if escaped then Closes(text[1..], false)
                   else if text[0] == '\\' then Closes(text[1..], true)
                   else text[0] == '"' || Closes(text[1..], false))
  }

  lemma {:induction false} OpenStringOfPrefix(text: string, escaped: bool, rest: string)
    ensures var n := OpenString(text, escaped);
            && (Closes(text, escaped) ==> OpenString(text[..n] + rest, escaped) == n && Closes(text[..n], escaped))
            && (!Closes(text, escaped) ==> n == |text|)
  {
    if text != "" {
      var n := OpenString(text, escaped);
      var next := !escaped && text[0] == '\\';
      assert (text[..n] + rest)[1..] == text[1..][..n - 1] + rest && text[..n][1..] == text[1..][..n - 1];
      if escaped || text[0] != '"' { OpenStringOfPrefix(text[1..], next, rest); }
    }
  }

  /** Tokens that are what the lexer makes of their own source, none of them a comment. */
  predicate Stable(tokens: seq<Token>) {
    tokens == []
    || (Stable(tokens[1..])
        && match tokens[0]
        case Comment(_) => false
        case Literal(text) =>
          && text != "" && text[0] == '"' && OpenString(text[1..], false) == |text| - 1
          && (Closes(text[1..], false) || Source(tokens[1..]) == "")
        case Other(c) =>
          c != '"'
            && (c == '/'
                ==> Source(tokens[1..]) == "" || (Source(tokens[1..])[0] != '/' && Source(tokens[1..])[0] != '*')))
  }

  lemma {:induction false} StableLexes(tokens: seq<Token>)
    requires Stable(tokens)
    ensures Lex(Source(tokens)) == Some(tokens)
  {
    if tokens != [] {
      var rest := Source(tokens[1..]);
      StableLexes(tokens[1..]);
      StableFirst(tokens[0], rest, tokens);
      var text := Source(tokens);
      assert text[|tokens[0].Source()|..] == rest;
      assert tokens == [tokens[0]] + tokens[1..];
    }
  }

  lemma StableFirst(token: Token, rest: string, tokens: seq<Token>)
    requires tokens != [] && Stable(tokens) && token == tokens[0] && rest == Source(tokens[1..])
    ensures token.Source() != "" && First(token.Source() + rest) == Some(token)
  {
    if token.Literal? {
      LiteralIsFirst(token.text, rest);
    } else {
      CharIsFirst(token.c, rest);
    }
  }

  lemma LiteralIsFirst(literal: string, rest: string)
    requires literal != "" && literal[0] == '"' && OpenString(literal[1..], false) == |literal| - 1
    requires Closes(literal[1..], false) || rest == ""
    ensures First(literal + rest) == Some(Literal(literal))
  {
    var inside, text := literal[1..], literal + rest;
    assert text[1..] == inside + rest;
    OpenStringOfPrefix(inside, false, rest);
    assert inside[..|inside|] == inside && inside + "" == inside;
    assert text[..|literal|] == literal;
  }

  lemma CharIsFirst(c: char, rest: string)
    requires c != '"' && (c == '/' ==> rest == "" || (rest[0] != '/' && rest[0] != '*'))
    ensures First([c] + rest) == Some(Other(c))
  {
    assert ([c] + rest)[1..] == rest;
  }

  /** Blanking changes the first character only where a comment starts. */
  lemma BlankedStart(text: string)
    requires Lex(text).Some?
    ensures var blank := Source(Blanked(Lex(text).value));
            (blank == "" <==> text == "") && (text != "" ==> blank != "" && (blank[0] == text[0] || blank[0] == ' '))
  {
    if text != "" {
      var token, rest := First(text).value, Lex(text[|First(text).value.Source()|..]).value;
      assert ([token] + rest)[1..] == rest;
      assert Source(Blanked(Lex(text).value)) == (if token.Comment? then " " else token.Source())
             + Source(Blanked(rest));
    }
  }

  lemma {:induction false} BlankedIsStable(text: string)
    requires Lex(text).Some?
    ensures Stable(Blanked(Lex(text).value))
  {
    if text != "" {
      var token := First(text).value;
      var behind := text[|token.Source()|..];
      var rest := Lex(behind).value;
      BlankedIsStable(behind);
      BlankedStart(behind);
      var blank := if token.Comment? then Other(' ') else token;
      assert ([token] + rest)[1..] == rest;
      assert Blanked(Lex(text).value) == [blank] + Blanked(rest) && ([blank] + Blanked(rest))[1..] == Blanked(rest);
      FirstIsSound(text);
    }
  }

  /** What the lexer's first token is like. */
  lemma FirstIsSound(text: string)
    requires text != "" && First(text).Some?
    ensures var token, behind := First(text).value, text[|First(text).value.Source()|..];
            match token
            case Comment(_) => true
            case Literal(inside) => inside[0] == '"' && OpenString(inside[1..], false) == |inside| - 1
                                    && (Closes(inside[1..], false) || behind == "")
            case Other(c) => c == text[0] != '"'
                             && (c == '/' ==> behind == "" || (behind[0] != '/' && behind[0] != '*'))
  {
    if text[0] == '"' {
      var n := OpenString(text[1..], false);
      OpenStringOfPrefix(text[1..], false, "");
      assert text[..1 + n][1..] == text[1..][..n] && text[1..][..n] + "" == text[1..][..n];
      if !Closes(text[1..], false) { assert text[1..][..n] == text[1..]; }
    } else if text[0] == '/' && |text| > 1 {
      assert text[1] == '/' ==> "//" <= text;
      assert text[1] == '*' ==> "/*" <= text;
    }
  }

  /** Removing trailing commas uncovers white space or a closing bracket, nothing else. */
  lemma WithoutTrailingStart(tokens: seq<Token>)
    requires Stable(tokens)
    ensures var kept, text := Source(WithoutTrailing(tokens)), Source(tokens);
            && (text == "" ==> kept == "")
            && (kept != ""
                ==> text != "" && (kept[0] == text[0] || kept[0] == '}' || kept[0] == ']' || IsSpace(kept[0])))
  {
    if tokens != [] {
      var rest := WithoutTrailing(tokens[1..]);
      StableFirst(tokens[0], Source(tokens[1..]), tokens);
      if IsTrailing(tokens) {
        assert WithoutTrailing(tokens) == rest;
        assert tokens[1..] != [] && tokens[1..][0].Other? && !IsTrailing(tokens[1..]);
        assert rest[0] == tokens[1..][0];
      } else {
        assert WithoutTrailing(tokens) == [tokens[0]] + rest && ([tokens[0]] + rest)[1..] == rest;
      }
    }
  }

  /** A token stays stable before other tokens, if their text starts no new comment behind it. */
  lemma StableBefore(tokens: seq<Token>, kept: seq<Token>)
    requires tokens != [] && Stable(tokens) && Stable(kept)
    requires Source(tokens[1..]) == "" ==> Source(kept) == ""
    requires Source(kept) != "" ==> Source(tokens[1..]) != "" && (Source(kept)[0] == Source(tokens[1..])[0]
                                                                  || (Source(kept)[0] != '/' && Source(kept)[0] != '*'))
    ensures Stable([tokens[0]] + kept)
  {
    var joined := [tokens[0]] + kept;
    assert joined[1..] == kept && joined[0] == tokens[0];
  }

  lemma {:induction false} WithoutTrailingIsStable(tokens: seq<Token>)
    requires Stable(tokens)
    ensures Stable(WithoutTrailing(tokens))
  {
    if tokens != [] {
      WithoutTrailingIsStable(tokens[1..]);
      WithoutTrailingStart(tokens[1..]);
      if !IsTrailing(tokens) { StableBefore(tokens, WithoutTrailing(tokens[1..])); }
    }
  }

  // ---------------------------------------------------------------- the second loop

  /** What the second loop still has to write. */
  function KeptRest(text: string): Option<string> {
    match Lex(text) case None => None case Some(tokens) => Some(Source(WithoutTrailing(tokens)))
  }

  predicate IsCalm(text: string) {
    Lex(text).Some? && Stable(Lex(text).value)
  }

  function KeptInside(text: string, inString: bool, escaped: bool): Option<string> {
    if inString then var n := OpenString(text, escaped); Prefixed(text[..n], KeptRest(text[n..])) else KeptRest(text)
  }

  /** The first token of calm text, and calm text behind it. */
  lemma CalmFirst(text: string)
    requires text != "" && IsCalm(text)
    ensures First(text).Some? && !First(text).value.Comment?
    ensures var token, rest := First(text).value, text[|First(text).value.Source()|..];
            IsCalm(rest) && Lex(text).value == [token] + Lex(rest).value
  {
    var token := First(text).value;
    var rest := Lex(text[|token.Source()|..]).value;
    assert ([token] + rest)[1..] == rest && ([token] + rest)[0] == token;
  }

  lemma KeptStep(text: string)
    requires text != "" && IsCalm(text)
    ensures First(text).Some? && !First(text).value.Comment?
    ensures var token, rest := First(text).value, text[|First(text).value.Source()|..];
            && IsCalm(rest)
            && KeptRest(text) == Prefixed(if IsTrailing(Lex(text).value) then "" else token.Source(), KeptRest(rest))
  {
    CalmFirst(text);
    var token := First(text).value;
    var rest := Lex(text[|token.Source()|..]).value;
    KeptTokens(token, rest);
  }

  lemma KeptTokens(token: Token, rest: seq<Token>)
    ensures var tokens := [token] + rest;
            Source(WithoutTrailing(tokens)) == (if IsTrailing(tokens) then "" else token.Source())
                + Source(WithoutTrailing(rest))
  {
    var kept := WithoutTrailing(rest);
    assert ([token] + rest)[1..] == rest && ([token] + kept)[1..] == kept;
  }

  /** White space ahead, then the character that decides about a comma. */
  function SpaceRun(text: string): nat
    ensures SpaceRun(text) <= |text|
  {
    if text != "" && IsSpace(text[0]) then 1 + SpaceRun(text[1..]) else 0
  }

  lemma {:induction false} SolidCharDecides(text: string)
    requires IsCalm(text)
    ensures var ahead := text[SpaceRun(text)..];
            forall c :: c == '}' || c == ']'
                        ==> (NextSolid(Lex(text).value) == Some(Other(c)) <==> ahead != "" && ahead[0] == c)
  {
    if text != "" {
      KeptStep(text);
      FirstIsSound(text);
      var token := First(text).value;
      var rest := text[|token.Source()|..];
      assert ([token] + Lex(rest).value)[1..] == Lex(rest).value;
      if IsSpace(text[0]) {
        assert token == Other(text[0]) && rest == text[1..];
        SolidCharDecides(rest);
        assert text[SpaceRun(text)..] == rest[SpaceRun(rest)..];
      } else {
        assert text[0..] == text;
      }
    }
  }

  method CommaIsTrailing(text: string, index: nat) returns (trailing: bool)
    requires index < |text| && text[index] == ',' && IsCalm(text[index..])
    ensures trailing == IsTrailing(Lex(text[index..]).value)
  {
    var lookahead := index + 1;
    while lookahead < |text| && IsSpace(text[lookahead])
      invariant index + 1 <= lookahead <= |text|
      invariant index + 1 + SpaceRun(text[index + 1..]) == lookahead + SpaceRun(text[lookahead..])
    {
      assert text[lookahead..][1..] == text[lookahead + 1..];
      lookahead := lookahead + 1;
    }
    trailing := lookahead < |text| && (text[lookahead] == '}' || text[lookahead] == ']');
    assert text[index + 1..][SpaceRun(text[index + 1..])..] == text[lookahead..];
    CommaDecides(text, index);
  }

  lemma CommaDecides(text: string, index: nat)
    requires index < |text| && text[index] == ',' && IsCalm(text[index..])
    ensures var ahead := text[index + 1..][SpaceRun(text[index + 1..])..];
            IsTrailing(Lex(text[index..]).value) <==> ahead != "" && (ahead[0] == '}' || ahead[0] == ']')
  {
    CalmFirst(text[index..]);
    assert text[index..][1..] == text[index + 1..];
    SolidCharDecides(text[index + 1..]);
    var tokens := Lex(text[index + 1..]).value;
    assert ([Other(',')] + tokens)[1..] == tokens;
  }

  lemma KeepInside(text: string, i: nat, escaped: bool, out: string)
    requires i < |text|
    ensures Prefixed(out, KeptInside(text[i..], true, escaped))
            == Prefixed(out + [text[i]],
                      KeptInside(text[i + 1..], escaped || text[i] != '"', !escaped && text[i] == '\\'))
  {
    var ahead := text[i..];
    var n := OpenString(ahead, escaped);
    assert ahead[1..] == text[i + 1..];
    assert ahead[..n] == [text[i]] + ahead[1..][..n - 1] && ahead[n..] == ahead[1..][n - 1..];
    BehindTwice([text[i]], ahead[1..][..n - 1], KeptRest(ahead[n..]));
    BehindTwice(out, [text[i]], KeptInside(text[i + 1..], escaped || text[i] != '"', !escaped && text[i] == '\\'));
  }

  lemma KeepQuote(text: string, i: nat, out: string)
    requires i < |text| && text[i] == '"' && IsCalm(text[i..])
    ensures Prefixed(out, KeptRest(text[i..])) == Prefixed(out + [text[i]], KeptInside(text[i + 1..], true, false))
  {
    var ahead := text[i..];
    KeptStep(ahead);
    var n := OpenString(ahead[1..], false);
    assert ahead[1..] == text[i + 1..];
    assert ahead[..1 + n] == [text[i]] + ahead[1..][..n] && ahead[1 + n..] == ahead[1..][n..];
    BehindTwice([text[i]], ahead[1..][..n], KeptRest(ahead[1 + n..]));
    BehindTwice(out, [text[i]], KeptInside(text[i + 1..], true, false));
  }

  lemma KeepOutside(text: string, i: nat, out: string)
    requires i < |text| && text[i] != '"' && IsCalm(text[i..])
    ensures IsCalm(text[i + 1..])
    ensures Prefixed(out, KeptRest(text[i..]))
            == Prefixed(if IsTrailing(Lex(text[i..]).value) then out else out + [text[i]], KeptRest(text[i + 1..]))
  {
    KeptStep(text[i..]);
    assert text[i..][1..] == text[i + 1..];
    BehindTwice(out, if IsTrailing(Lex(text[i..]).value) then "" else [text[i]], KeptRest(text[i + 1..]));
    assert out + "" == out;
  }

  /** The text ahead is calm behind the literal that may be open. */
  predicate CalmAhead(text: string, inString: bool, escaped: bool) {
    IsCalm(if inString then text[OpenString(text, escaped)..] else text)
  }

  lemma CalmInside(text: string, i: nat, escaped: bool)
    requires i < |text| && CalmAhead(text[i..], true, escaped)
    ensures CalmAhead(text[i + 1..], escaped || text[i] != '"', !escaped && text[i] == '\\')
  {
    var ahead := text[i..];
    var n := OpenString(ahead, escaped);
    assert ahead[1..] == text[i + 1..];
    assert ahead[n..] == ahead[1..][n - 1..];
    assert ahead[1..][0..] == ahead[1..];
  }

  lemma CalmBehindQuote(text: string, i: nat)
    requires i < |text| && text[i] == '"' && IsCalm(text[i..])
    ensures CalmAhead(text[i + 1..], true, false)
  {
    var ahead := text[i..];
    CalmFirst(ahead);
    var n := OpenString(ahead[1..], false);
    assert ahead[1..] == text[i + 1..];
    assert ahead[1 + n..] == ahead[1..][n..];
  }

  method RemoveTrailingCommas(text: string) returns (out: string)
    requires IsCalm(text)
    ensures Some(out) == KeptRest(text)
  {
    out := "";
    var inString, stringEscape := false, false;
    assert text[0..] == text;
    BehindTwice("", "", KeptRest(text));
    for index := 0 to |text|
      invariant CalmAhead(text[index..], inString, stringEscape)
      invariant Prefixed(out, KeptInside(text[index..], inString, stringEscape)) == KeptRest(text)
      invariant !inString ==> !stringEscape
    {
      var ch := text[index];
      if inString {
        CalmInside(text, index, stringEscape);
        KeepInside(text, index, stringEscape, out);
        out := out + [ch];
        if stringEscape { stringEscape := false; }
        else if ch == '\\' { stringEscape := true; }
        else if ch == '"' { inString := false; }
      } else if ch == '"' {
        CalmBehindQuote(text, index);
        KeepQuote(text, index, out);
        inString := true;
        out := out + [ch];
      } else {
        KeepOutside(text, index, out);
        var trailing := false;
        if ch == ',' { trailing := CommaIsTrailing(text, index); }
        if !trailing { out := out + [ch]; }
      }
    }
    assert text[|text|..] == "" && out + "" == out;
    BehindTwice("", "", KeptRest(""));
  }

  // ---------------------------------------------------------------- what stripping keeps and removes

  method StripJsonc(text: string) returns (result: Option<string>)
    ensures result == Stripped(text)
  {
    var blank := StripComments(text);
    if blank.None? { return None; }
    BlankedIsStable(text);
    StableLexes(Blanked(Lex(text).value));
    var out := RemoveTrailingCommas(blank.value);
    return Some(out);
  }

  function Literals(tokens: seq<Token>): seq<string> {
    if tokens == [] then []
    else if tokens[0].Literal? then [tokens[0].text] + Literals(tokens[1..])
    else Literals(tokens[1..])
  }

  predicate NoComment(tokens: seq<Token>) {
    forall token :: token in tokens ==> !token.Comment?
  }

  lemma {:induction false} LiteralsAreKept(tokens: seq<Token>)
    ensures Literals(Blanked(tokens)) == Literals(tokens)
    ensures Literals(WithoutTrailing(tokens)) == Literals(tokens)
  {
    if tokens != [] {
      LiteralsAreKept(tokens[1..]);
      assert Blanked(tokens)[1..] == Blanked(tokens[1..]);
      if !IsTrailing(tokens) {
        assert ([tokens[0]] + WithoutTrailing(tokens[1..]))[1..] == WithoutTrailing(tokens[1..]);
      }
    }
  }

  lemma {:induction false} StableHasNoComment(tokens: seq<Token>)
    requires Stable(tokens)
    ensures NoComment(tokens)
  {
    if tokens != [] {
      StableHasNoComment(tokens[1..]);
      assert tokens == [tokens[0]] + tokens[1..];
    }
  }

  /** The stripped text lexes to the blanked tokens without their trailing commas: string literals come through
      byte for byte and in order, no comment is left, and both loops agree on where the literals are. */
  lemma StrippingKeepsLiterals(text: string)
    requires Lex(text).Some?
    ensures var tokens, out := Lex(text).value, Stripped(text).value;
            && Lex(out) == Some(WithoutTrailing(Blanked(tokens)))
            && Literals(Lex(out).value) == Literals(tokens)
            && NoComment(Lex(out).value)
  {
    var tokens := Lex(text).value;
    BlankedIsStable(text);
    WithoutTrailingIsStable(Blanked(tokens));
    StableLexes(WithoutTrailing(Blanked(tokens)));
    StableHasNoComment(WithoutTrailing(Blanked(tokens)));
    LiteralsAreKept(tokens);
    LiteralsAreKept(Blanked(tokens));
  }

  // ---------------------------------------------------------------- stripping again

  lemma {:induction false} BlankedOfStable(tokens: seq<Token>)
    requires Stable(tokens)
    ensures Blanked(tokens) == tokens
  {
    if tokens != [] { BlankedOfStable(tokens[1..]); }
  }

  predicate IsBracket(token: Option<Token>) {
    token == Some(Other('}')) || token == Some(Other(']'))
  }

  /** From the first token on that is not white space. */
  function Solid(tokens: seq<Token>): (solid: seq<Token>)
    ensures NextSolid(tokens) == if solid == [] then None else Some(solid[0])
  {
    if tokens != [] && tokens[0].Other? && IsSpace(tokens[0].c) then Solid(tokens[1..]) else tokens
  }

  predicate HasTrailing(tokens: seq<Token>) {
    tokens != [] && (IsTrailing(tokens) || HasTrailing(tokens[1..]))
  }

  /** Two commas before a closing bracket, with nothing but white space between the three: taking the second makes the
      first a trailing one. */
  predicate UncoversComma(tokens: seq<Token>) {
    tokens != [] && ((tokens[0] == Other(',') && IsTrailing(Solid(tokens[1..]))) || UncoversComma(tokens[1..]))
  }

  lemma {:induction false} NothingTrailing(tokens: seq<Token>)
    ensures |WithoutTrailing(tokens)| <= |tokens|
    ensures WithoutTrailing(tokens) == tokens <==> !HasTrailing(tokens)
  {
    if tokens != [] {
      NothingTrailing(tokens[1..]);
      if !IsTrailing(tokens) { assert WithoutTrailing(tokens)[1..] == WithoutTrailing(tokens[1..]); }
    }
  }

  /** Without trailing commas a closing bracket comes next exactly where one came next, or a comma that was taken. */
  lemma {:induction false} NextIsBracket(tokens: seq<Token>)
    ensures IsBracket(NextSolid(WithoutTrailing(tokens))) <==> IsBracket(NextSolid(tokens)) || IsTrailing(Solid(tokens))
  {
    if tokens != [] {
      NextIsBracket(tokens[1..]);
      if !IsTrailing(tokens) { assert WithoutTrailing(tokens)[1..] == WithoutTrailing(tokens[1..]); }
    }
  }

  lemma {:induction false} TrailingIsLeft(tokens: seq<Token>)
    ensures HasTrailing(WithoutTrailing(tokens)) <==> UncoversComma(tokens)
  {
    if tokens != [] {
      TrailingIsLeft(tokens[1..]);
      NextIsBracket(tokens[1..]);
      if !IsTrailing(tokens) { assert WithoutTrailing(tokens)[1..] == WithoutTrailing(tokens[1..]); }
    }
  }

  /** Stripping a stripped text changes nothing exactly when no comma before a closing bracket has another one just
      before it, white space and comments aside. */
  lemma StrippingTwice(text: string)
    requires Lex(text).Some?
    ensures Stripped(Stripped(text).value) == Stripped(text) <==> !UncoversComma(Blanked(Lex(text).value))
  {
    var kept := WithoutTrailing(Blanked(Lex(text).value));
    StrippingKeepsLiterals(text);
    BlankedIsStable(text);
    WithoutTrailingIsStable(Blanked(Lex(text).value));
    BlankedOfStable(kept);
    NothingTrailing(kept);
    TrailingIsLeft(Blanked(Lex(text).value));
    WithoutTrailingIsStable(kept);
    StableLexes(WithoutTrailing(kept));
  }

  /** An instance: of two trailing commas only the last goes. */
  lemma OnlyTheLastCommaGoes()
    ensures Stripped(",,]") == Some(",]") && Stripped(",]") == Some("]")
  {
    var three, two, one := [Other(','), Other(','), Other(']')], [Other(','), Other(']')], [Other(']')];
    assert three[1..] == two && two[1..] == one && one[1..] == [];
    assert Source(one) == "]" && Source(two) == ",]" && Source(three) == ",,]";
    StableLexes(two);
    StableLexes(three);
    assert Blanked(one) == one && Blanked(two) == two && Blanked(three) == three;
    assert WithoutTrailing(one) == one && WithoutTrailing(two) == one && WithoutTrailing(three) == two;
  }
}
