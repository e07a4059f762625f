/** The offline fallback of BlogPostService: the summary and metadata used
    when the model's answer cannot be used, synthesised from the notes alone. */
module MetadataDefaults {
  import opened Wrappers
  import opened Text
  import opened BlogRecords

  /** The summary of CreateDefaultSummaryAndMetadata. */
  const DefaultSummary := "This blog post contains technical notes and insights about a project or technology."

  /** The title used when the first line is too short. */
  const PlaceholderTitle := "Technical Notes and Insights"

  /** A first line becomes the title only when it has more UTF-16 code
      units than this. */
  const MinTitleLength := 5

  const DefaultCategories: seq<string> := ["Technical", "Development"]

  /** The fixed vocabulary tags are drawn from, in the order they are tried. */
  const CommonTechTerms: seq<string> :=
    ["AWS", "Azure", "Docker", "Kubernetes", "API", "React", "Angular", "Vue",
     "JavaScript", "TypeScript", "Python", "C#", ".NET", "Java", "PHP", "SQL",
     "NoSQL", "MongoDB", "Redis", "Git", "CI/CD", "DevOps"]

  /** At most this many vocabulary terms become tags. */
  const MaxTags := 5

  /** The tags used when no vocabulary term occurs in the notes. */
  const FallbackTags: seq<string> := ["Development", "Technology"]

  /** notes.Split('\n').FirstOrDefault()?.Trim() ?? "": the split always has
      a first piece, so the default never applies. */
  function FirstLine(notes: string): string {
    Trim(Split(notes, '\n')[0])
  }

  function DefaultTitle(notes: string): (r: string)
    ensures r == PlaceholderTitle || Utf16Length(r) > MinTitleLength
  {
    var line := FirstLine(notes);
    if Utf16Length(line) > MinTitleLength then line else PlaceholderTitle
  }

  /** commonTechTerms.Where(term => notes.Contains(term, OrdinalIgnoreCase)),
      before Take(5). */
  function MatchingTerms(terms: seq<string>, notes: string): (r: seq<string>)
    ensures |r| <= |terms|
    ensures forall k :: 0 <= k < |r| ==> r[k] in terms && ContainsIgnoreCase(notes, r[k])
    decreases |terms|
  {
    if terms == [] then []
    else if ContainsIgnoreCase(notes, terms[0]) then [terms[0]] + MatchingTerms(terms[1..], notes)
    else MatchingTerms(terms[1..], notes)
  }

  /** The first n items of xs, or all of them when there are fewer: Take(n). */
  function TakeUpTo(xs: seq<string>, n: nat): (r: seq<string>)
    ensures |r| <= n && |r| <= |xs| && r == xs[..|r|]
    ensures |xs| <= n ==> r == xs
    ensures |xs| > n ==> |r| == n
  {
    if |xs| <= n then xs else xs[..n]
  }

  /** The tags of CreateDefaultMetadata: vocabulary terms found in the notes,
      or the fallback tags when there are none. */
  function DefaultTags(notes: string): (r: seq<string>)
    ensures 1 <= |r| <= MaxTags
  {
    var found := TakeUpTo(MatchingTerms(CommonTechTerms, notes), MaxTags);
    if found == [] then FallbackTags else found
  }

  function DefaultMetadata(notes: string): BlogMetadata {
    BlogMetadata(DefaultTitle(notes), DefaultCategories, DefaultTags(notes))
  }

  function DefaultSummaryAndMetadata(notes: string): SummaryAndMetadata {
    SummaryAndMetadata(DefaultSummary, DefaultMetadata(notes))
  }

  /** CreateDefaultMetadata: the tag list is built by trying the vocabulary in
      order, stopping once five terms are found, then filled with the
      fallback tags when it stayed empty. */
  method CreateDefaultMetadata(notes: string) returns (m: BlogMetadata)
    ensures m == DefaultMetadata(notes)
  {
    var line := Trim(Split(notes, '\n')[0]);
    var title := if Utf16Length(line) > MinTitleLength then line else PlaceholderTitle;
    var categories := DefaultCategories;
    var tags := FindTerms(CommonTechTerms, notes);
    if tags == [] {
      tags := tags + ["Development"];
      tags := tags + ["Technology"];
    }
    assert title == DefaultTitle(notes);
    assert tags == DefaultTags(notes);
    m := BlogMetadata(title, categories, tags);
  }

  /** terms.Where(term => notes.Contains(term, OrdinalIgnoreCase)).Take(5).ToList():
      the terms are tried in order until five have been found. */
  method FindTerms(terms: seq<string>, notes: string) returns (tags: seq<string>)
    ensures tags == TakeUpTo(MatchingTerms(terms, notes), MaxTags)
  {
    tags := [];
    var i := 0;
    while i < |terms| && |tags| < MaxTags
      invariant 0 <= i <= |terms|
      invariant tags == MatchingTerms(terms[..i], notes)
      invariant |tags| <= MaxTags
    {
      MatchingTermsConcat(terms[..i], [terms[i]], notes);
      assert terms[..i + 1] == terms[..i] + [terms[i]];
      if ContainsIgnoreCase(notes, terms[i]) {
        tags := tags + [terms[i]];
      }
      i := i + 1;
    }
    MatchingTermsConcat(terms[..i], terms[i..], notes);
    assert terms[..i] + terms[i..] == terms;
  }

  /** CreateDefaultSummaryAndMetadata. */
  method CreateDefaultSummaryAndMetadata(notes: string) returns (r: SummaryAndMetadata)
    ensures r == DefaultSummaryAndMetadata(notes)
  {
    var metadata := CreateDefaultMetadata(notes);
    r := SummaryAndMetadata(DefaultSummary, metadata);
  }

  /** The filter works piecewise over the vocabulary. */
  lemma {:induction false} MatchingTermsConcat(a: seq<string>, b: seq<string>, notes: string)
    ensures MatchingTerms(a + b, notes) == MatchingTerms(a, notes) + MatchingTerms(b, notes)
    decreases |a|
  {
    if a == [] {
      assert a + b == b;
    } else {
      assert (a + b)[0] == a[0] && (a + b)[1..] == a[1..] + b;
      MatchingTermsConcat(a[1..], b, notes);
    }
  }

  /** A term is matched exactly when it is in the list and occurs in the notes. */
  lemma {:induction false} MatchingTermsIff(terms: seq<string>, notes: string, t: string)
    ensures t in MatchingTerms(terms, notes) <==> t in terms && ContainsIgnoreCase(notes, t)
    decreases |terms|
  {
    if terms != [] {
      MatchingTermsIff(terms[1..], notes, t);
      assert terms == [terms[0]] + terms[1..];
    }
  }

  /** The items of xs occur in ys in the same order. */
  predicate IsSubsequence(xs: seq<string>, ys: seq<string>)
    decreases |ys|
  {
    xs == [] || (ys != [] &&
      if xs[0] == ys[0] then IsSubsequence(xs[1..], ys[1..]) else IsSubsequence(xs, ys[1..]))
  }

  lemma {:induction false} SubsequencePrefix(xs: seq<string>, ys: seq<string>, n: nat)
    requires IsSubsequence(xs, ys) && n <= |xs|
    ensures IsSubsequence(xs[..n], ys)
    decreases |ys|
  {
    if n > 0 {
      if xs[0] == ys[0] {
        SubsequencePrefix(xs[1..], ys[1..], n - 1);
        assert xs[..n][1..] == xs[1..][..n - 1];
      } else {
        SubsequencePrefix(xs, ys[1..], n);
      }
    }
  }

  /** The matched terms keep vocabulary order. */
  lemma {:induction false} MatchingTermsOrdered(terms: seq<string>, notes: string)
    ensures IsSubsequence(MatchingTerms(terms, notes), terms)
    decreases |terms|
  {
    if terms != [] {
      MatchingTermsOrdered(terms[1..], notes);
      var rest := MatchingTerms(terms[1..], notes);
      if ContainsIgnoreCase(notes, terms[0]) {
        assert ([terms[0]] + rest)[1..] == rest;
      } else if rest != [] {
        assert ContainsIgnoreCase(notes, rest[0]);
      }
    }
  }

  /** There is only one first separator position. */
  lemma FirstSeparatorUnique(s: string, sep: char, n: nat, m: nat)
    requires n <= |s| && sep !in s[..n] && (n == |s| || s[n] == sep)
    requires m <= |s| && sep !in s[..m] && (m == |s| || s[m] == sep)
    ensures n == m
  {
  }

  /** The default title is the trimmed text before the first '\n' when that
      is longer than five UTF-16 code units, and the placeholder otherwise. */
  lemma DefaultTitleFirstLine(notes: string, n: nat)
    requires n <= |notes| && '\n' !in notes[..n] && (n == |notes| || notes[n] == '\n')
    ensures DefaultTitle(notes)
            == if Utf16Length(Trim(notes[..n])) > MinTitleLength then Trim(notes[..n]) else PlaceholderTitle
  {
    SplitFirst(notes, '\n');
    var f := Split(notes, '\n')[0];
    assert '\n' !in f;
    assert notes[..|f|] == f;
    FirstSeparatorUnique(notes, '\n', n, |f|);
  }

  /** The title comes from the first line even when it is empty and later
      lines are not. */
  lemma LeadingNewlinePlaceholder(rest: string)
    ensures DefaultTitle("\n" + rest) == PlaceholderTitle
  {
    var notes := "\n" + rest;
    DefaultTitleFirstLine(notes, 0);
  }

  /** Three characters outside the Basic Multilingual Plane are six UTF-16
      code units, enough for a title. */
  lemma AstralTitle(c: char)
    requires c as int > 0xFFFF && !IsWhiteSpace(c)
    ensures DefaultTitle([c, c, c]) == [c, c, c]
  {
    var notes := [c, c, c];
    assert Utf16Length([c]) == 2 by {
      assert [c][1..] == [];
    }
    assert Utf16Length([c, c]) == 4 by {
      assert [c, c][1..] == [c];
    }
    assert Utf16Length(notes) == 6 by {
      assert notes[1..] == [c, c];
    }
    SplitNone(notes, '\n');
    TrimByUnchanged(notes, IsWhiteSpace);
  }

  /** Categories never depend on the notes. */
  lemma DefaultCategoriesFixed(notes: string)
    ensures DefaultMetadata(notes).categories == ["Technical", "Development"]
  {
  }

  /** No term is matched exactly when none occurs in the notes. */
  lemma MatchingTermsEmptyIff(terms: seq<string>, notes: string)
    ensures MatchingTerms(terms, notes) == []
            <==> forall k :: 0 <= k < |terms| ==> !ContainsIgnoreCase(notes, terms[k])
  {
    forall k | 0 <= k < |terms|
      ensures ContainsIgnoreCase(notes, terms[k]) ==> MatchingTerms(terms, notes) != []
    {
      MatchingTermsIff(terms, notes, terms[k]);
    }
  }

  /** The fallback tags are used exactly when no vocabulary term is matched. */
  lemma DefaultTagsFallbackNoMatch(notes: string)
    ensures DefaultTags(notes) == FallbackTags <==> MatchingTerms(CommonTechTerms, notes) == []
  {
    var found := MatchingTerms(CommonTechTerms, notes);
    if found != [] {
      var t := TakeUpTo(found, MaxTags);
      assert t[0] == found[0];
      assert found[0] in CommonTechTerms;
      FallbackNotVocabulary();
    }
  }

  /** The fallback tags are used exactly when no vocabulary term occurs in the
      notes: neither fallback tag is a vocabulary term. */
  lemma DefaultTagsFallbackIff(notes: string)
    ensures DefaultTags(notes) == FallbackTags
            <==> forall k :: 0 <= k < |CommonTechTerms| ==> !ContainsIgnoreCase(notes, CommonTechTerms[k])
  {
    DefaultTagsFallbackNoMatch(notes);
    MatchingTermsEmptyIff(CommonTechTerms, notes);
  }

  lemma FallbackNotVocabulary()
    ensures "Development" !in CommonTechTerms
  {
  }

  /** Every default tag is a fallback tag or a vocabulary term found in the notes. */
  lemma DefaultTagsSound(notes: string)
    ensures DefaultTags(notes) == FallbackTags ||
            forall k :: 0 <= k < |DefaultTags(notes)| ==>
              DefaultTags(notes)[k] in CommonTechTerms && ContainsIgnoreCase(notes, DefaultTags(notes)[k])
  {
    var found := MatchingTerms(CommonTechTerms, notes);
    assert DefaultTags(notes) == FallbackTags || DefaultTags(notes) == found[..|DefaultTags(notes)|];
  }

  /** With at most five terms found, every vocabulary term in the notes is a tag. */
  lemma DefaultTagsComplete(notes: string, t: string)
    requires |MatchingTerms(CommonTechTerms, notes)| <= MaxTags
    requires t in CommonTechTerms && ContainsIgnoreCase(notes, t)
    ensures t in DefaultTags(notes)
  {
    MatchingTermsIff(CommonTechTerms, notes, t);
  }

  /** When more than five vocabulary terms occur, the tags are the first five
      of them, in vocabulary order. */
  lemma DefaultTagsFirstFive(notes: string)
    requires |MatchingTerms(CommonTechTerms, notes)| > MaxTags
    ensures DefaultTags(notes) == MatchingTerms(CommonTechTerms, notes)[..MaxTags]
  {
  }

  /** Found tags appear in vocabulary order. */
  lemma DefaultTagsOrdered(notes: string)
    ensures DefaultTags(notes) == FallbackTags || IsSubsequence(DefaultTags(notes), CommonTechTerms)
  {
    var found := MatchingTerms(CommonTechTerms, notes);
    MatchingTermsOrdered(CommonTechTerms, notes);
    if |found| > MaxTags {
      SubsequencePrefix(found, CommonTechTerms, MaxTags);
    }
  }
}
