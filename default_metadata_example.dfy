/** The end-to-end example of the metadata fallback: notes that name Docker,
    Kubernetes and CI/CD, and nothing else from the vocabulary, give those
    three tags in vocabulary order and their own single line as the title. */
module DefaultMetadataExample {
  import opened Text
  import opened Wrappers
  import opened BlogRecords
  import opened MetadataDefaults
  import BlogPostService

  /** The example notes, cut so that each technology they name is a piece of its own. */
  const Pieces: seq<string> :=
    ["Today I deployed a ", "Docker", " container to ", "Kubernetes", " using a ", "CI/CD", " pipeline."]

  /** "Today I deployed a Docker container to Kubernetes using a CI/CD pipeline." */
  const Notes := Pieces[0] + Pieces[1] + Pieces[2] + Pieces[3] + Pieces[4] + Pieces[5] + Pieces[6]

  predicate NoCharIgnoreCase(s: string, c: char) {
    forall k :: 0 <= k < |s| ==> !EqualsIgnoreCase(s[k], c)
  }

  predicate NoPairIgnoreCase(s: string, a: char, b: char) {
    forall k :: 0 <= k < |s| - 1 ==> !(EqualsIgnoreCase(s[k], a) && EqualsIgnoreCase(s[k + 1], b))
  }

  lemma NoCharConcat(x: string, y: string, c: char)
    requires NoCharIgnoreCase(x, c) && NoCharIgnoreCase(y, c)
    ensures NoCharIgnoreCase(x + y, c)
  {
    forall k | 0 <= k < |x + y| ensures !EqualsIgnoreCase((x + y)[k], c) {
      if k >= |x| { assert (x + y)[k] == y[k - |x|]; }
    }
  }

  lemma NoPairConcat(x: string, y: string, a: char, b: char)
    requires NoPairIgnoreCase(x, a, b) && NoPairIgnoreCase(y, a, b)
    requires x == [] || y == [] || !(EqualsIgnoreCase(x[|x| - 1], a) && EqualsIgnoreCase(y[0], b))
    ensures NoPairIgnoreCase(x + y, a, b)
  {
    forall k | 0 <= k < |x + y| - 1
      ensures !(EqualsIgnoreCase((x + y)[k], a) && EqualsIgnoreCase((x + y)[k + 1], b))
    {
      if k >= |x| {
        assert (x + y)[k] == y[k - |x|] && (x + y)[k + 1] == y[k + 1 - |x|];
      } else if k + 1 < |x| {
        assert (x + y)[k] == x[k] && (x + y)[k + 1] == x[k + 1];
      } else {
        assert (x + y)[k] == x[k] && (x + y)[k + 1] == y[0];
      }
    }
  }

  /** An occurrence in either part of a concatenation is an occurrence in the whole. */
  lemma ContainsConcat(x: string, y: string, term: string)
    requires ContainsIgnoreCase(x, term) || ContainsIgnoreCase(y, term)
    ensures ContainsIgnoreCase(x + y, term)
  {
    ContainsIgnoreCaseIff(x + y, term);
    if ContainsIgnoreCase(x, term) {
      ContainsIgnoreCaseIff(x, term);
      var p :| OccursIgnoreCaseAt(x, term, p);
      forall k | 0 <= k < |term| ensures EqualsIgnoreCase((x + y)[p + k], term[k]) {
        assert (x + y)[p + k] == x[p + k];
      }
      assert OccursIgnoreCaseAt(x + y, term, p);
    } else {
      ContainsIgnoreCaseIff(y, term);
      var p :| OccursIgnoreCaseAt(y, term, p);
      forall k | 0 <= k < |term| ensures EqualsIgnoreCase((x + y)[|x| + p + k], term[k]) {
        assert (x + y)[|x| + p + k] == y[p + k];
      }
      assert OccursIgnoreCaseAt(x + y, term, |x| + p);
    }
  }

  lemma ContainsItself(term: string)
    ensures ContainsIgnoreCase(term, term)
  {
    ContainsIgnoreCaseIff(term, term);
    assert OccursIgnoreCaseAt(term, term, 0);
  }

  /** A term holding a character that occurs nowhere in the text is not contained in it. */
  lemma NotContainedChar(text: string, term: string, j: nat)
    requires j < |term| && NoCharIgnoreCase(text, ToUpperAscii(term[j]))
    ensures !ContainsIgnoreCase(text, term)
  {
    forall i ensures !OccursIgnoreCaseAt(text, term, i) {
      if 0 <= i && i + |term| <= |text| {
        assert !EqualsIgnoreCase(text[i + j], term[j]);
      }
    }
    ContainsIgnoreCaseIff(text, term);
  }

  /** A term holding two adjacent characters that are adjacent nowhere in the
      text is not contained in it. */
  lemma NotContainedPair(text: string, term: string, j: nat)
    requires j + 1 < |term| && NoPairIgnoreCase(text, ToUpperAscii(term[j]), ToUpperAscii(term[j + 1]))
    ensures !ContainsIgnoreCase(text, term)
  {
    forall i ensures !OccursIgnoreCaseAt(text, term, i) {
      if 0 <= i && i + |term| <= |text| {
        assert !(EqualsIgnoreCase(text[i + j], term[j]) && EqualsIgnoreCase(text[i + j + 1], term[j + 1]));
      }
    }
    ContainsIgnoreCaseIff(text, term);
  }

  /** Characters the notes lack: W, Z, V, J, H, #, Q, M and the line feed. */
  lemma NotesLackChar(c: char)
    requires c in "WZVJH#QM\n"
    ensures NoCharIgnoreCase(Notes, c)
  {
    var p0, p1, p2, p3, p4, p5, p6 := Pieces[0], Pieces[1], Pieces[2], Pieces[3], Pieces[4], Pieces[5], Pieces[6];
    assert NoCharIgnoreCase(p0, c) && NoCharIgnoreCase(p1, c) && NoCharIgnoreCase(p2, c) && NoCharIgnoreCase(p3, c);
    assert NoCharIgnoreCase(p4, c) && NoCharIgnoreCase(p5, c) && NoCharIgnoreCase(p6, c);
    NoCharConcat(p0, p1, c);
    NoCharConcat(p0 + p1, p2, c);
    NoCharConcat(p0 + p1 + p2, p3, c);
    NoCharConcat(p0 + p1 + p2 + p3, p4, c);
    NoCharConcat(p0 + p1 + p2 + p3 + p4, p5, c);
    NoCharConcat(p0 + p1 + p2 + p3 + p4 + p5, p6, c);
  }

  /** The character pairs that rule out the vocabulary terms whose letters
      all occur in the notes: AP (API), EA (React), GU (Angular), YP
      (TypeScript), .N (.NET), DI (Redis) and GI (Git). */
  predicate IsAbsentPair(a: char, b: char) {
    (a, b) in {('A', 'P'), ('E', 'A'), ('G', 'U'), ('Y', 'P'), ('.', 'N'), ('D', 'I'), ('G', 'I')}
  }

  lemma HeadLacksPair(a: char, b: char)
    requires IsAbsentPair(a, b)
    ensures NoPairIgnoreCase(Pieces[0], a, b)
  {
    assert NoPairIgnoreCase(Pieces[0], a, b) by {
      var p := Pieces[0];
      forall k | 0 <= k < |p| - 1 ensures !(EqualsIgnoreCase(p[k], a) && EqualsIgnoreCase(p[k + 1], b)) {
        assert p[k] in p && p[k + 1] in p;
      }
    }
  }

  lemma MiddleLacksPair(a: char, b: char)
    requires IsAbsentPair(a, b)
    ensures NoPairIgnoreCase(Pieces[1], a, b)
    ensures NoPairIgnoreCase(Pieces[2], a, b)
    ensures NoPairIgnoreCase(Pieces[3], a, b)
  {
    assert NoPairIgnoreCase(Pieces[1], a, b) by {
      var p := Pieces[1];
      forall k | 0 <= k < |p| - 1 ensures !(EqualsIgnoreCase(p[k], a) && EqualsIgnoreCase(p[k + 1], b)) {
        assert p[k] in p && p[k + 1] in p;
      }
    }
    assert NoPairIgnoreCase(Pieces[2], a, b) by {
      var p := Pieces[2];
      forall k | 0 <= k < |p| - 1 ensures !(EqualsIgnoreCase(p[k], a) && EqualsIgnoreCase(p[k + 1], b)) {
        assert p[k] in p && p[k + 1] in p;
      }
    }
    assert NoPairIgnoreCase(Pieces[3], a, b) by {
      var p := Pieces[3];
      forall k | 0 <= k < |p| - 1 ensures !(EqualsIgnoreCase(p[k], a) && EqualsIgnoreCase(p[k + 1], b)) {
        assert p[k] in p && p[k + 1] in p;
      }
    }
  }

  lemma TailLacksPair(a: char, b: char)
    requires IsAbsentPair(a, b)
    ensures NoPairIgnoreCase(Pieces[4], a, b)
    ensures NoPairIgnoreCase(Pieces[5], a, b)
    ensures NoPairIgnoreCase(Pieces[6], a, b)
  {
    assert NoPairIgnoreCase(Pieces[4], a, b) by {
      var p := Pieces[4];
      forall k | 0 <= k < |p| - 1 ensures !(EqualsIgnoreCase(p[k], a) && EqualsIgnoreCase(p[k + 1], b)) {
        assert p[k] in p && p[k + 1] in p;
      }
    }
    assert NoPairIgnoreCase(Pieces[5], a, b) by {
      var p := Pieces[5];
      forall k | 0 <= k < |p| - 1 ensures !(EqualsIgnoreCase(p[k], a) && EqualsIgnoreCase(p[k + 1], b)) {
        assert p[k] in p && p[k + 1] in p;
      }
    }
    assert NoPairIgnoreCase(Pieces[6], a, b) by {
      var p := Pieces[6];
      forall k | 0 <= k < |p| - 1 ensures !(EqualsIgnoreCase(p[k], a) && EqualsIgnoreCase(p[k + 1], b)) {
        assert p[k] in p && p[k + 1] in p;
      }
    }
  }

  lemma NotesLackPair(a: char, b: char)
    requires IsAbsentPair(a, b)
    ensures NoPairIgnoreCase(Notes, a, b)
  {
    var p0, p1, p2, p3, p4, p5, p6 := Pieces[0], Pieces[1], Pieces[2], Pieces[3], Pieces[4], Pieces[5], Pieces[6];
    HeadLacksPair(a, b);
    MiddleLacksPair(a, b);
    TailLacksPair(a, b);
    NoPairConcat(p0, p1, a, b);
    NoPairConcat(p0 + p1, p2, a, b);
    NoPairConcat(p0 + p1 + p2, p3, a, b);
    NoPairConcat(p0 + p1 + p2 + p3, p4, a, b);
    NoPairConcat(p0 + p1 + p2 + p3 + p4, p5, a, b);
    NoPairConcat(p0 + p1 + p2 + p3 + p4 + p5, p6, a, b);
  }

  /** A term contained in one piece is contained in the notes. */
  lemma ContainedInNotes(n: nat, term: string)
    requires n < |Pieces| && ContainsIgnoreCase(Pieces[n], term)
    ensures ContainsIgnoreCase(Notes, term)
  {
    var p0, p1, p2, p3, p4, p5, p6 := Pieces[0], Pieces[1], Pieces[2], Pieces[3], Pieces[4], Pieces[5], Pieces[6];
    if n <= 1 { ContainsConcat(p0, p1, term); }
    if n <= 2 { ContainsConcat(p0 + p1, p2, term); }
    if n <= 3 { ContainsConcat(p0 + p1 + p2, p3, term); }
    if n <= 4 { ContainsConcat(p0 + p1 + p2 + p3, p4, term); }
    if n <= 5 { ContainsConcat(p0 + p1 + p2 + p3 + p4, p5, term); }
    ContainsConcat(p0 + p1 + p2 + p3 + p4 + p5, p6, term);
  }

  /** The vocabulary terms the notes name, by position: Docker, Kubernetes, CI/CD. */
  predicate IsNamed(i: nat) { i == 2 || i == 3 || i == 20 }

  /** For each vocabulary term the notes do not name, what rules it out: a
      character the notes lack (false, its position in the term) or an
      adjacent pair the notes lack (true, the position of its first character). */
  const Witness: seq<(bool, nat)> :=
    [(false, 1), (false, 1), (false, 0), (false, 0), (true, 0), (true, 1), (true, 2), (false, 0),
     (false, 0), (true, 1), (false, 3), (false, 1), (true, 0), (false, 0), (false, 1), (false, 1),
     (false, 3), (false, 0), (true, 2), (true, 0), (false, 0), (false, 2)]

  lemma AbsentTerm(i: nat)
    requires i < |CommonTechTerms| && !IsNamed(i)
    ensures !ContainsIgnoreCase(Notes, CommonTechTerms[i])
  {
    var (byPair, j) := Witness[i];
    var term := CommonTechTerms[i];
    if byPair {
      NotesLackPair(ToUpperAscii(term[j]), ToUpperAscii(term[j + 1]));
      NotContainedPair(Notes, term, j);
    } else {
      NotesLackChar(ToUpperAscii(term[j]));
      NotContainedChar(Notes, term, j);
    }
  }

  /** Docker, Kubernetes and CI/CD occur in the notes. */
  lemma NamedTerm(i: nat)
    requires i < |CommonTechTerms| && IsNamed(i)
    ensures ContainsIgnoreCase(Notes, CommonTechTerms[i])
  {
    var n := if i == 2 then 1 else if i == 3 then 3 else 5;
    var term := Pieces[n];
    assert CommonTechTerms[i] == term;
    ContainsItself(term);
    ContainedInNotes(n, term);
  }

  lemma {:induction false} MatchingAll(terms: seq<string>, notes: string)
    requires forall k :: 0 <= k < |terms| ==> ContainsIgnoreCase(notes, terms[k])
    ensures MatchingTerms(terms, notes) == terms
    decreases |terms|
  {
    if terms != [] {
      MatchingAll(terms[1..], notes);
    }
  }

  /** The vocabulary terms the notes name (and no others) occur in them. */
  predicate NamesExactly(notes: string) {
    forall i :: 0 <= i < |CommonTechTerms| ==> (ContainsIgnoreCase(notes, CommonTechTerms[i]) <==> IsNamed(i))
  }

  lemma UnnamedSegments(notes: string)
    requires NamesExactly(notes)
    ensures MatchingTerms(CommonTechTerms[..2], notes) == []
    ensures MatchingTerms(CommonTechTerms[4..20], notes) == []
    ensures MatchingTerms(CommonTechTerms[21..], notes) == []
  {
    var v := CommonTechTerms;
    forall k | 0 <= k < |v[4..20]| ensures !ContainsIgnoreCase(notes, v[4..20][k]) {
      assert v[4..20][k] == v[k + 4] && !IsNamed(k + 4);
    }
    forall k | 0 <= k < |v[21..]| ensures !ContainsIgnoreCase(notes, v[21..][k]) {
      assert v[21..][k] == v[k + 21];
    }
    MatchingTermsEmptyIff(v[..2], notes);
    MatchingTermsEmptyIff(v[4..20], notes);
    MatchingTermsEmptyIff(v[21..], notes);
  }

  lemma NamedSegments(notes: string)
    requires NamesExactly(notes)
    ensures MatchingTerms(CommonTechTerms[2..4], notes) == ["Docker", "Kubernetes"]
    ensures MatchingTerms(CommonTechTerms[20..21], notes) == ["CI/CD"]
  {
    var v := CommonTechTerms;
    NamedSegment(notes, 2, 4);
    NamedSegment(notes, 20, 21);
    assert v[2..4] == ["Docker", "Kubernetes"] by {
      assert v[2..4] == [v[2], v[3]];
    }
    assert v[20..21] == ["CI/CD"] by {
      assert v[20..21] == [v[20]];
    }
  }

  /** A run of named vocabulary terms is matched in full. */
  lemma NamedSegment(notes: string, i: nat, j: nat)
    requires NamesExactly(notes)
    requires i <= j <= |CommonTechTerms| && forall k :: i <= k < j ==> IsNamed(k)
    ensures MatchingTerms(CommonTechTerms[i..j], notes) == CommonTechTerms[i..j]
  {
    var v := CommonTechTerms[i..j];
    forall k | 0 <= k < |v| ensures ContainsIgnoreCase(notes, v[k]) {
      assert v[k] == CommonTechTerms[k + i];
    }
    MatchingAll(v, notes);
  }

  lemma MatchingSlices(terms: seq<string>, i: nat, k: nat, j: nat, notes: string)
    requires i <= k <= j <= |terms|
    ensures MatchingTerms(terms[i..j], notes) == MatchingTerms(terms[i..k], notes) + MatchingTerms(terms[k..j], notes)
  {
    assert terms[i..j] == terms[i..k] + terms[k..j];
    MatchingTermsConcat(terms[i..k], terms[k..j], notes);
  }

  /** The matched terms of the vocabulary, from which terms occur in the notes. */
  lemma MatchingBySegments(notes: string)
    requires NamesExactly(notes)
    ensures MatchingTerms(CommonTechTerms, notes) == ["Docker", "Kubernetes", "CI/CD"]
  {
    var v := CommonTechTerms;
    UnnamedSegments(notes);
    NamedSegments(notes);
    MatchingSlices(v, 20, 21, 22, notes);
    MatchingSlices(v, 4, 20, 22, notes);
    MatchingSlices(v, 2, 4, 22, notes);
    MatchingSlices(v, 0, 2, 22, notes);
    assert v[0..22] == v && v[0..2] == v[..2] && v[21..22] == v[21..];
  }

  /** Of the vocabulary, exactly Docker, Kubernetes and CI/CD occur in the notes. */
  lemma ExampleMatchingTerms()
    ensures MatchingTerms(CommonTechTerms, Notes) == ["Docker", "Kubernetes", "CI/CD"]
  {
    forall i | 0 <= i < |CommonTechTerms|
      ensures ContainsIgnoreCase(Notes, CommonTechTerms[i]) <==> IsNamed(i)
    {
      if IsNamed(i) { NamedTerm(i); } else { AbsentTerm(i); }
    }
    MatchingBySegments(Notes);
  }

  /** A single line longer than five characters, with no whitespace at its
      ends, is its own default title. */
  lemma SingleLineTitle(notes: string)
    requires '\n' !in notes && |notes| > MinTitleLength
    requires !IsWhiteSpace(notes[0]) && !IsWhiteSpace(notes[|notes| - 1])
    ensures DefaultTitle(notes) == notes
  {
    SplitNone(notes, '\n');
    TrimByUnchanged(notes, IsWhiteSpace);
  }

  /** Notes that name Docker, Kubernetes and CI/CD (and no other vocabulary
      term) on one line get that line as the title, the fixed categories, and
      exactly those three tags in vocabulary order. */
  lemma ExampleMetadata()
    ensures DefaultMetadata(Notes)
            == BlogMetadata(Notes, ["Technical", "Development"], ["Docker", "Kubernetes", "CI/CD"])
  {
    NotesLackChar('\n');
    assert '\n' !in Notes by {
      forall k | 0 <= k < |Notes| ensures Notes[k] != '\n' {
        assert !EqualsIgnoreCase(Notes[k], '\n');
      }
    }
    assert Notes[0] == 'T' && Notes[|Notes| - 1] == '.';
    SingleLineTitle(Notes);
    ExampleMatchingTerms();
  }

  /** With no usable first answer, a post generated from these notes carries
      that metadata. */
  lemma ExamplePostWithoutAnswer(fileDate: string, complete: string -> Completion,
                                 deserialize: string -> Deserialized, post: BlogPostResult)
    requires complete(BlogPostService.SummaryAndMetadataRequest(Notes)) == NoMessage
    requires BlogPostService.IsBlogPost(Notes, fileDate, complete, deserialize, Success(post))
    ensures post.summary == DefaultSummary
    ensures post.metadata == BlogMetadata(Notes, ["Technical", "Development"], ["Docker", "Kubernetes", "CI/CD"])
  {
    BlogPostService.NoAnswerPost(Notes, fileDate, complete, deserialize, post);
    ExampleMetadata();
  }
}
