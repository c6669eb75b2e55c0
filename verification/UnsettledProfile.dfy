/** A profile that one pass of normalization (`src/domain/profile.ts`) does not settle, and what becomes of it when it
    is published (`src/profile/publication.ts`) and checked before serving (`src/enrollment/enrollment.layer.ts`). */
module UnsettledProfile {
  import opened Options
  import opened Sorting
  import opened Texts
  import opened CanonicalJson
  import opened Normalization
  import opened Revisions

  lemma {:induction false} SamePrefix(prefix: string, left: string, right: string)
    ensures TextLe(prefix + left, prefix + right) <==> TextLe(left, right)
  {
    if prefix == "" {
      assert prefix + left == left && prefix + right == right;
    } else {
      assert (prefix + left)[1..] == prefix[1..] + left && (prefix + right)[1..] == prefix[1..] + right;
      SamePrefix(prefix[1..], left, right);
    }
  }

  lemma {:induction false} EncodeCharsOfBoth(left: string, right: string)
    ensures EncodeChars(left + right) == EncodeChars(left) + EncodeChars(right)
  {
    if left == "" {
      assert left + right == right;
    } else {
      assert (left + right)[1..] == left[1..] + right;
      EncodeCharsOfBoth(left[1..], right);
    }
  }

  function WithUrl(recipe: Recipe, url: string): Recipe
    requires recipe.indexPolicy.Some?
  {
    recipe.(indexPolicy := Some(recipe.indexPolicy.value.(url := url)))
  }

  function KeyTail(recipe: Recipe): string
    requires recipe.indexPolicy.Some?
  {
    ",\"reviewedBy\":" + EncodeText(recipe.indexPolicy.value.reviewedBy) + ",\"reviewedAt\":"
        + EncodeText(recipe.indexPolicy.value.reviewedAt)
  }

  lemma KeyWithUrl(recipe: Recipe, url: string)
    requires recipe.indexPolicy.Some?
    ensures RecipeKey(WithUrl(recipe, url))
            == (KeyHead(recipe) + "\0" + "{\"url\":")
                + (EncodeText(url) + (KeyTail(recipe) + "}" + "\0" + SourceText(recipe.source)))
  {
    var policy := recipe.indexPolicy.value;
    Regrouped(KeyHead(recipe) + "\0", "{\"url\":", EncodeText(url), ",\"reviewedBy\":", EncodeText(policy.reviewedBy),
              ",\"reviewedAt\":", EncodeText(policy.reviewedAt), "}", "\0" + SourceText(recipe.source));
    assert RecipeKey(WithUrl(recipe, url)) == KeyHead(recipe) + "\0" + PolicyText(Some(policy.(url := url))) + "\0"
           + SourceText(recipe.source);
    Associated(KeyHead(recipe) + "\0" + PolicyText(Some(policy.(url := url))), "\0", SourceText(recipe.source));
    Associated(KeyTail(recipe) + "}", "\0", SourceText(recipe.source));
  }

  lemma Associated(a: string, b: string, c: string)
    ensures a + b + c == a + (b + c)
  {
  }

  lemma Regrouped(a: string, b: string, c: string, d: string, e: string, f: string, g: string, h: string, i: string)
    ensures a + (b + c + d + e + f + g + h) + i == (a + b) + (c + (d + e + f + g + h + i))
  {
  }

  /** Recipes that differ in their URL only, and there first in one letter, are ordered by that letter. */
  lemma LetterDecides(recipe: Recipe, prefix: string, c: char, d: char, rest: string)
    requires recipe.indexPolicy.Some? && IsLetter(c) && IsLetter(d) && c < d
    ensures RecipeLe(WithUrl(recipe, prefix + [c] + rest), WithUrl(recipe, prefix + [d] + rest))
    ensures !RecipeLe(WithUrl(recipe, prefix + [d] + rest), WithUrl(recipe, prefix + [c] + rest))
  {
    var head, tail := KeyHead(recipe) + "\0" + "{\"url\":", KeyTail(recipe) + "}" + "\0" + SourceText(recipe.source);
    KeyWithUrl(recipe, prefix + [c] + rest);
    KeyWithUrl(recipe, prefix + [d] + rest);
    EncodedAtLetter(prefix, c, rest, tail);
    EncodedAtLetter(prefix, d, rest, tail);
    var start, end := "\"" + EncodeChars(prefix), EncodeChars(rest) + ("\"" + tail);
    SamePrefix(start, [c] + end, [d] + end);
    SamePrefix(start, [d] + end, [c] + end);
    SamePrefix(head, start + ([c] + end), start + ([d] + end));
    SamePrefix(head, start + ([d] + end), start + ([c] + end));
  }

  lemma EncodedAtLetter(prefix: string, c: char, rest: string, tail: string)
    requires IsLetter(c)
    ensures EncodeText(prefix + [c] + rest) + tail == ("\"" + EncodeChars(prefix))
            + ([c] + (EncodeChars(rest) + ("\"" + tail)))
  {
    EncodeCharsOfBoth(prefix + [c], rest);
    EncodeCharsOfBoth(prefix, [c]);
    EncodedLetter(c);
    Quoted("\"", EncodeChars(prefix), [c], EncodeChars(rest), tail);
  }

  lemma Quoted(a: string, b: string, c: string, d: string, tail: string)
    ensures a + (b + c + d) + a + tail == (a + b) + (c + (d + (a + tail)))
  {
  }

  lemma EncodedLetter(c: char)
    requires IsLetter(c)
    ensures EncodeChars([c]) == [c]
  {
    assert EncodeChars([c]) == EncodeChar(c) + EncodeChars([c][1..]);
  }

  /** The key depends on the index URL, not on the build policy. */
  lemma KeyOfNormal(canonical: Canonicalizer, recipe: Recipe, url: string, normal: string)
    requires recipe.indexPolicy.Some? && canonical(url) == Some(normal)
    ensures RecipeKey(NormalRecipe(canonical, WithUrl(recipe, url))) == RecipeKey(WithUrl(recipe, normal))
  {
  }

  /** One tool with two recipes that differ in the first letter of their host. */
  function TwoHosts(recipe: Recipe, prefix: string, c: char, d: char, rest: string): Profile
    requires recipe.indexPolicy.Some?
  {
    var recipes := [WithUrl(recipe, prefix + [c] + rest), WithUrl(recipe, prefix + [d] + rest)];
    var spec := ToolSpec(recipe.package, recipes, None, None);
    var tool := Resource(recipe.package, Tool, None, recipe.package, None, None, spec,
                         ExecutablePresent(recipe.package));
    Profile(recipe.package, recipe.package, None, Some([tool]), None)
  }

  /** Canonicalizing changes the first letter of one host from one before the other's to one behind it. */
  ghost predicate ChangesPlaces(canonical: Canonicalizer, prefix: string, c: char, d: char, e: char, rest: string) {
    && IsLetter(c) && IsLetter(d) && IsLetter(e) && c < d < e
    && canonical(prefix + [c] + rest) == Some(prefix + [e] + rest)
    && canonical(prefix + [d] + rest) == Some(prefix + [d] + rest)
  }

  lemma RecipesLeaveOrder(canonical: Canonicalizer, recipe: Recipe, prefix: string, c: char, d: char, e: char,
                          rest: string)
    requires recipe.indexPolicy.Some? && ChangesPlaces(canonical, prefix, c, d, e, rest)
    ensures !AllStayOrdered(canonical, ListOf(TwoHosts(recipe, prefix, c, d, rest).resources))
  {
    var first, second := WithUrl(recipe, prefix + [c] + rest), WithUrl(recipe, prefix + [d] + rest);
    LetterDecides(recipe, prefix, c, d, rest);
    LetterDecides(recipe, prefix, d, e, rest);
    KeyOfNormal(canonical, recipe, prefix + [c] + rest, prefix + [e] + rest);
    KeyOfNormal(canonical, recipe, prefix + [d] + rest, prefix + [d] + rest);
    var resources := ListOf(TwoHosts(recipe, prefix, c, d, rest).resources);
    assert first in resources[0].spec.recipes && second in resources[0].spec.recipes
           && !StaysOrdered(canonical, first, second);
  }

  /** One pass does not settle such a profile. */
  lemma TwoHostsAreNotSettled(canonical: Canonicalizer, recipe: Recipe, prefix: string, c: char, d: char, e: char,
                              rest: string)
    requires Settles(canonical) && recipe.indexPolicy.Some? && ChangesPlaces(canonical, prefix, c, d, e, rest)
    ensures var profile := TwoHosts(recipe, prefix, c, d, rest);
      Normalize(canonical, Normalize(canonical, profile)) != Normalize(canonical, profile)
  {
    RecipesLeaveOrder(canonical, recipe, prefix, c, d, e, rest);
    NormalizeTwice(canonical, TwoHosts(recipe, prefix, c, d, rest));
  }

  /** Publishing such a profile stores a revision that the check before serving refuses. */
  lemma TwoHostsAreRefused(environment: Environment, revision: Revision, recipe: Recipe, prefix: string, c: char,
                           d: char, e: char,
                           rest: string)
    requires Faithful(environment) && recipe.indexPolicy.Some?
             && ChangesPlaces(environment.canonicalUrl, prefix, c, d, e, rest)
    requires IsBuiltFrom(environment, revision, TwoHosts(recipe, prefix, c, d, rest))
    ensures ValidateRevision(environment, revision, environment.keyId) == Err(ResourceMetadata)
  {
    RecipesLeaveOrder(environment.canonicalUrl, recipe, prefix, c, d, e, rest);
    PublishedPassesValidation(environment, revision, TwoHosts(recipe, prefix, c, d, rest));
  }

  // ---------------------------------------------------------------- hosts in lower case

  function LowerHost(text: string): string {
    if text == "" || text[0] == '/' then text else [LowerOf(text[0])] + LowerHost(text[1..])
  }

  /** What canonicalizing does to an HTTPS index URL without user, port, query or trailing slash: its host is put into
      lower case. */
  function LowerHostUrl(url: string): Option<string> {
    if "https://" <= url then Some("https://" + LowerHost(url[8..])) else None
  }

  lemma {:induction false} LowerHostTwice(text: string)
    ensures LowerHost(LowerHost(text)) == LowerHost(text)
  {
    if text != "" && text[0] != '/' {
      LowerHostTwice(text[1..]);
      assert LowerHost(text)[1..] == LowerHost(text[1..]);
    }
  }

  lemma LowerHostUrlSettles()
    ensures Settles(LowerHostUrl)
  {
    forall url | LowerHostUrl(url).Some? ensures LowerHostUrl(LowerHostUrl(url).value) == LowerHostUrl(url) {
      LowerHostTwice(url[8..]);
      assert LowerHostUrl(url).value[8..] == LowerHost(url[8..]);
    }
  }

  lemma FirstLetterOfHost(c: char, rest: string)
    requires IsLetter(c) && LowerHost(rest) == rest
    ensures LowerHostUrl("https://" + [c] + rest) == Some("https://" + [LowerOf(c)] + rest)
  {
    var url := "https://" + [c] + rest;
    assert url[..8] == "https://" && url[8..] == [c] + rest;
    assert ([c] + rest)[1..] == rest;
    assert "https://" + ([LowerOf(c)] + rest) == "https://" + [LowerOf(c)] + rest;
  }

  /** Reviewed indexes at `https://B` and `https://a`, the same rest following: in lower case the first belongs behind
      the second, and one pass does not settle the profile. */
  lemma OnePassIsNotEnough(recipe: Recipe, rest: string)
    requires recipe.indexPolicy.Some? && LowerHost(rest) == rest
    ensures var profile := TwoHosts(recipe, "https://", 'B', 'a', rest);
      Normalize(LowerHostUrl, Normalize(LowerHostUrl, profile)) != Normalize(LowerHostUrl, profile)
  {
    LowerHostUrlSettles();
    FirstLetterOfHost('B', rest);
    FirstLetterOfHost('a', rest);
    TwoHostsAreNotSettled(LowerHostUrl, recipe, "https://", 'B', 'a', 'b', rest);
  }
}
