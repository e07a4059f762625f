/** BlogPostService.GenerateFilename: "<date>-<slug>.md", where the slug is
    the title with every character other than an ASCII letter, digit,
    whitespace or '-' removed, every whitespace run replaced by one '-', and
    leading and trailing '-' trimmed.  The date is the caller's
    yyyy-MM-dd text. */
module Filename {
  import opened Text

  const MarkdownExtension := ".md"

  predicate IsSlugChar(c: char) { IsAsciiLetterOrDigit(c) || c == '-' }

  /** The characters the first replacement keeps: [a-zA-Z0-9\s-]. */
  predicate IsKept(c: char) { IsSlugChar(c) || IsWhiteSpace(c) }

  /** Regex.Replace(title, @"[^a-zA-Z0-9\s-]", ""). */
  function StripDisallowed(s: string): (r: string)
    ensures forall k :: 0 <= k < |r| ==> IsKept(r[k])
    ensures |r| <= |s|
    decreases |s|
  {
    if s == [] then []
    else if IsKept(s[0]) then [s[0]] + StripDisallowed(s[1..])
    else StripDisallowed(s[1..])
  }

  /** Regex.Replace(s, @"\s+", "-"): each maximal whitespace run becomes one '-'. */
  function CollapseWhiteSpace(s: string): string
    decreases |s|
  {
    if s == [] then []
    else if IsWhiteSpace(s[0]) then
      var rest := TrimStartBy(s, IsWhiteSpace);
      "-" + CollapseWhiteSpace(rest)
    else [s[0]] + CollapseWhiteSpace(s[1..])
  }

  /** After the replacement no whitespace is left. */
  lemma {:induction false} CollapseRemovesWhiteSpace(s: string)
    ensures NoWhiteSpace(CollapseWhiteSpace(s))
    decreases |s|
  {
    if s == [] {
    } else if IsWhiteSpace(s[0]) {
      var rest := TrimStartBy(s, IsWhiteSpace);
      CollapseRemovesWhiteSpace(rest);
      var c := CollapseWhiteSpace(rest);
      assert CollapseWhiteSpace(s) == "-" + c;
      forall k | 0 <= k < |"-" + c| ensures !IsWhiteSpace(("-" + c)[k]) {
        if k > 0 { assert ("-" + c)[k] == c[k - 1]; }
      }
    } else {
      CollapseRemovesWhiteSpace(s[1..]);
      var c := CollapseWhiteSpace(s[1..]);
      assert CollapseWhiteSpace(s) == [s[0]] + c;
      forall k | 0 <= k < |[s[0]] + c| ensures !IsWhiteSpace(([s[0]] + c)[k]) {
        if k > 0 { assert ([s[0]] + c)[k] == c[k - 1]; }
      }
    }
  }

  /** The URL-friendly form of a title. */
  function Slug(title: string): (r: string)
    ensures forall k :: 0 <= k < |r| ==> IsSlugChar(r[k])
    ensures r == [] || (r[0] != '-' && r[|r| - 1] != '-')
  {
    CollapseKeptChars(StripDisallowed(title));
    TrimBy(CollapseWhiteSpace(StripDisallowed(title)), IsHyphen)
  }

  /** Collapsing text of kept characters leaves only slug characters. */
  lemma {:induction false} CollapseKeptChars(s: string)
    requires forall k :: 0 <= k < |s| ==> IsKept(s[k])
    ensures forall k :: 0 <= k < |CollapseWhiteSpace(s)| ==> IsSlugChar(CollapseWhiteSpace(s)[k])
    decreases |s|
  {
    if s == [] {
    } else if IsWhiteSpace(s[0]) {
      var rest := TrimStartBy(s, IsWhiteSpace);
      assert rest == s[|s| - |rest|..];
      forall k | 0 <= k < |rest| ensures IsKept(rest[k]) {
        assert rest[k] == s[k + |s| - |rest|];
      }
      CollapseKeptChars(rest);
      var c := CollapseWhiteSpace(rest);
      assert CollapseWhiteSpace(s) == "-" + c;
      forall k | 0 <= k < |"-" + c| ensures IsSlugChar(("-" + c)[k]) {
        if k > 0 { assert ("-" + c)[k] == c[k - 1]; }
      }
    } else {
      var rest := s[1..];
      forall k | 0 <= k < |rest| ensures IsKept(rest[k]) {
        assert rest[k] == s[k + 1];
      }
      CollapseKeptChars(rest);
      var c := CollapseWhiteSpace(rest);
      assert CollapseWhiteSpace(s) == [s[0]] + c;
      forall k | 0 <= k < |[s[0]] + c| ensures IsSlugChar(([s[0]] + c)[k]) {
        if k > 0 { assert ([s[0]] + c)[k] == c[k - 1]; }
      }
    }
  }

  /** GenerateFilename with the date given. */
  function GenerateFilename(title: string, date: string): string {
    date + "-" + Slug(title) + MarkdownExtension
  }

  /** A filename is the date, a '-', a part made only of slug characters that
      neither starts nor ends with '-', and ".md"; the title enters it only
      through its slug. */
  lemma {:induction false} FilenameParts(title: string, date: string)
    ensures var f := GenerateFilename(title, date);
            |f| >= |date| + 4 && f[..|date|] == date && f[|date|] == '-' && f[|f| - 3..] == ".md"
            && f[|date| + 1..|f| - 3] == Slug(title)
    ensures var f := GenerateFilename(title, date);
            var mid := f[|date| + 1..|f| - 3];
            (forall k :: 0 <= k < |mid| ==> IsSlugChar(mid[k]))
            && (mid == [] || (mid[0] != '-' && mid[|mid| - 1] != '-'))
  {
    var slug := Slug(title);
    SlugInFilename(date, slug, GenerateFilename(title, date));
  }

  lemma {:induction false} SlugInFilename(date: string, slug: string, f: string)
    requires f == date + "-" + slug + ".md"
    ensures |f| >= |date| + 4 && f[..|date|] == date && f[|date|] == '-' && f[|f| - 3..] == ".md"
    ensures f[|date| + 1..|f| - 3] == slug
  {
  }

  /** Text made only of kept characters passes the first replacement unchanged. */
  lemma {:induction false} StripDisallowedKept(s: string)
    requires forall k :: 0 <= k < |s| ==> IsKept(s[k])
    ensures StripDisallowed(s) == s
    decreases |s|
  {
    if s != [] {
      StripDisallowedKept(s[1..]);
      assert [s[0]] + s[1..] == s;
    }
  }

  /** Text without whitespace passes the second replacement unchanged. */
  lemma {:induction false} CollapseNoWhiteSpace(s: string)
    requires forall k :: 0 <= k < |s| ==> !IsWhiteSpace(s[k])
    ensures CollapseWhiteSpace(s) == s
    decreases |s|
  {
    if s != [] {
      CollapseNoWhiteSpace(s[1..]);
      assert [s[0]] + s[1..] == s;
    }
  }

  /** The whitespace replacement works piecewise when the cut is not inside a
      whitespace run. */
  lemma {:induction false} CollapseConcat(a: string, b: string)
    requires a == [] || b == [] || !IsWhiteSpace(a[|a| - 1]) || !IsWhiteSpace(b[0])
    ensures CollapseWhiteSpace(a + b) == CollapseWhiteSpace(a) + CollapseWhiteSpace(b)
    decreases |a|, 1
  {
    if a == [] {
      assert a + b == b;
    } else if !IsWhiteSpace(a[0]) {
      CollapseConcatWordHead(a, b);
    } else if AllWhiteSpace(a) {
      assert CollapseWhiteSpace(a + b) == "-" + CollapseWhiteSpace(b) by {
        CollapseLeadingRun(a, b);
      }
      assert CollapseWhiteSpace(a) == "-" by {
        CollapseLeadingRun(a, []);
        assert a + [] == a;
      }
    } else {
      var k :| 0 <= k < |a| && !IsWhiteSpace(a[k]);
      CollapseConcatRunHead(a, b, k);
    }
  }

  lemma {:induction false} CollapseConcatWordHead(a: string, b: string)
    requires a != [] && !IsWhiteSpace(a[0])
    requires b == [] || !IsWhiteSpace(a[|a| - 1]) || !IsWhiteSpace(b[0])
    ensures CollapseWhiteSpace(a + b) == CollapseWhiteSpace(a) + CollapseWhiteSpace(b)
    decreases |a|, 0
  {
    var t := a[1..];
    assert (a + b)[0] == a[0] && (a + b)[1..] == t + b;
    CollapseConcat(t, b);
    assert CollapseWhiteSpace(a + b) == [a[0]] + CollapseWhiteSpace(t + b);
  }

  lemma {:induction false} CollapseConcatRunHead(a: string, b: string, k: nat)
    requires k < |a| && IsWhiteSpace(a[0]) && !IsWhiteSpace(a[k])
    requires b == [] || !IsWhiteSpace(a[|a| - 1]) || !IsWhiteSpace(b[0])
    ensures CollapseWhiteSpace(a + b) == CollapseWhiteSpace(a) + CollapseWhiteSpace(b)
    decreases |a|, 0
  {
    var rest := TrimStartBy(a, IsWhiteSpace);
    var ab := a + b;
    var cr, cb := CollapseWhiteSpace(rest), CollapseWhiteSpace(b);
    assert TrimStartBy(ab, IsWhiteSpace) == rest + b by {
      TrimStartConcatKept(a, b, IsWhiteSpace, k);
    }
    assert CollapseWhiteSpace(rest + b) == cr + cb by {
      var n := |a| - |rest|;
      assert rest == a[n..];
      assert n <= k;
      assert rest[|rest| - 1] == a[|a| - 1];
      CollapseConcat(rest, b);
    }
    assert ab[0] == a[0];
    assert CollapseWhiteSpace(ab) == "-" + (cr + cb);
    assert CollapseWhiteSpace(a) == "-" + cr;
    assert "-" + (cr + cb) == "-" + cr + cb;
  }

  /** A whitespace run followed by text that does not start with whitespace
      becomes one '-'. */
  lemma {:induction false} CollapseLeadingRun(w: string, b: string)
    requires w != [] && AllWhiteSpace(w)
    requires b == [] || !IsWhiteSpace(b[0])
    ensures CollapseWhiteSpace(w + b) == "-" + CollapseWhiteSpace(b)
  {
    assert (w + b)[0] == w[0];
    TrimStartConcatDropped(w, b, IsWhiteSpace);
    assert TrimStartBy(b, IsWhiteSpace) == b;
  }

  /** Every whitespace run becomes exactly one '-'. */
  lemma {:induction false} CollapseRun(a: string, w: string, b: string)
    requires a == [] || !IsWhiteSpace(a[|a| - 1])
    requires w != [] && AllWhiteSpace(w)
    requires b == [] || !IsWhiteSpace(b[0])
    ensures CollapseWhiteSpace(a + (w + b)) == CollapseWhiteSpace(a) + ("-" + CollapseWhiteSpace(b))
  {
    assert (w + b)[0] == w[0];
    CollapseConcat(a, w + b);
    CollapseLeadingRun(w, b);
  }

  /** Slugging a slug changes nothing. */
  lemma {:induction false} SlugIdempotent(title: string)
    ensures Slug(Slug(title)) == Slug(title)
  {
    var s := Slug(title);
    assert StripDisallowed(s) == s by {
      StripDisallowedKept(s);
    }
    assert CollapseWhiteSpace(s) == s by {
      CollapseNoWhiteSpace(s);
    }
    TrimByUnchanged(s, IsHyphen);
  }

  /** The first replacement works piecewise. */
  lemma {:induction false} StripDisallowedConcat(a: string, b: string)
    ensures StripDisallowed(a + b) == StripDisallowed(a) + StripDisallowed(b)
    decreases |a|
  {
    if a == [] {
      assert a + b == b;
    } else {
      assert (a + b)[0] == a[0] && (a + b)[1..] == a[1..] + b;
      StripDisallowedConcat(a[1..], b);
    }
  }

  /** A word without whitespace followed by a whitespace run: the word is
      kept and the run becomes one '-'. */
  lemma {:induction false} CollapseWordRun(a: string, w: string, b: string)
    requires NoWhiteSpace(a)
    requires w != [] && AllWhiteSpace(w)
    requires b == [] || !IsWhiteSpace(b[0])
    ensures CollapseWhiteSpace(a + (w + b)) == a + ("-" + CollapseWhiteSpace(b))
  {
    CollapseNoWhiteSpace(a);
    CollapseRun(a, w, b);
  }

  /** When collapsing already leaves no '-' at either end, trimming is a no-op. */
  lemma {:induction false} SlugSteps(title: string, stripped: string, collapsed: string)
    requires StripDisallowed(title) == stripped
    requires CollapseWhiteSpace(stripped) == collapsed
    requires collapsed == [] || (collapsed[0] != '-' && collapsed[|collapsed| - 1] != '-')
    ensures Slug(title) == collapsed
  {
    TrimByUnchanged(collapsed, IsHyphen);
  }

  /** The title "Docker & Kubernetes: A Guide!"
      gives "<date>-Docker-Kubernetes-A-Guide.md". */
  lemma {:induction false} DockerExample(title: string, date: string)
    requires title == "Docker & Kubernetes: A Guide!"
    ensures GenerateFilename(title, date) == date + "-" + "Docker-Kubernetes-A-Guide" + ".md"
  {
    DockerSlug(title);
  }

  lemma {:induction false} DockerSlug(title: string)
    requires title == "Docker & Kubernetes: A Guide!"
    ensures Slug(title) == "Docker-Kubernetes-A-Guide"
  {
    var d, k, a, g := "Docker", "Kubernetes", "A", "Guide";
    DockerTitleStripped(title);
    DockerCollapsed(d, k, a, g);
    var collapsed := d + ("-" + (k + ("-" + (a + ("-" + g)))));
    DockerWordsJoined(d, k, a, g);
    SlugSteps(title, d + ("  " + (k + (" " + (a + (" " + g))))), collapsed);
  }

  lemma {:induction false} DockerWordsJoined(d: string, k: string, a: string, g: string)
    requires d == "Docker" && k == "Kubernetes" && a == "A" && g == "Guide"
    ensures d + ("-" + (k + ("-" + (a + ("-" + g))))) == "Docker-Kubernetes-A-Guide"
  {
  }

  lemma {:induction false} DockerTitleStripped(title: string)
    requires title == "Docker & Kubernetes: A Guide!"
    ensures StripDisallowed(title) == "Docker" + ("  " + ("Kubernetes" + (" " + ("A" + (" " + "Guide")))))
  {
    var p1, p2, p3 := "Docker ", " Kubernetes", " A Guide";
    DockerTitlePieces(title, p1, p2, p3);
    DockerPiecesKept(p1, p2, p3);
    StripSeparators(p1, p2, p3, '&', ':', '!');
  }

  lemma {:induction false} DockerTitlePieces(title: string, p1: string, p2: string, p3: string)
    requires title == "Docker & Kubernetes: A Guide!"
    requires p1 == "Docker " && p2 == " Kubernetes" && p3 == " A Guide"
    ensures title == p1 + ['&'] + p2 + [':'] + p3 + ['!']
    ensures p1 + p2 + p3 == "Docker" + ("  " + ("Kubernetes" + (" " + ("A" + (" " + "Guide")))))
  {
  }

  lemma {:induction false} DockerPiecesKept(p1: string, p2: string, p3: string)
    requires p1 == "Docker " && p2 == " Kubernetes" && p3 == " A Guide"
    ensures forall i :: 0 <= i < |p1| ==> IsKept(p1[i])
    ensures forall i :: 0 <= i < |p2| ==> IsKept(p2[i])
    ensures forall i :: 0 <= i < |p3| ==> IsKept(p3[i])
  {
  }

  /** Three runs of kept characters separated by characters that are not
      kept: only the runs remain. */
  lemma {:induction false} StripSeparators(p1: string, p2: string, p3: string, x: char, y: char, z: char)
    requires forall i :: 0 <= i < |p1| ==> IsKept(p1[i])
    requires forall i :: 0 <= i < |p2| ==> IsKept(p2[i])
    requires forall i :: 0 <= i < |p3| ==> IsKept(p3[i])
    requires !IsKept(x) && !IsKept(y) && !IsKept(z)
    ensures StripDisallowed(p1 + [x] + p2 + [y] + p3 + [z]) == p1 + p2 + p3
  {
    var t1 := p1 + [x];
    var t2 := t1 + p2;
    var t3 := t2 + [y];
    var t4 := t3 + p3;
    StripDisallowedKept(p1);
    StripDropped(p1, x);
    StripKept(t1, p2);
    StripDropped(t2, y);
    StripKept(t3, p3);
    StripDropped(t4, z);
  }

  lemma {:induction false} StripDropped(a: string, x: char)
    requires !IsKept(x)
    ensures StripDisallowed(a + [x]) == StripDisallowed(a)
  {
    StripDisallowedConcat(a, [x]);
    assert StripDisallowed([x]) == [];
    assert StripDisallowed(a) + [] == StripDisallowed(a);
  }

  lemma {:induction false} StripKept(a: string, p: string)
    requires forall i :: 0 <= i < |p| ==> IsKept(p[i])
    ensures StripDisallowed(a + p) == StripDisallowed(a) + p
  {
    StripDisallowedConcat(a, p);
    StripDisallowedKept(p);
  }

  lemma {:induction false} DockerCollapsed(d: string, k: string, a: string, g: string)
    requires d == "Docker" && k == "Kubernetes" && a == "A" && g == "Guide"
    ensures CollapseWhiteSpace(d + ("  " + (k + (" " + (a + (" " + g))))))
            == d + ("-" + (k + ("-" + (a + ("-" + g)))))
  {
    assert NoWhiteSpace(d) && NoWhiteSpace(k) && NoWhiteSpace(a) && NoWhiteSpace(g);
    CollapseFourWords(d, k, a, g, "  ");
  }

  predicate NoWhiteSpace(s: string) {
    forall i :: 0 <= i < |s| ==> !IsWhiteSpace(s[i])
  }

  /** Four words without whitespace, the first two separated by the run w and
      the others by single spaces, are joined by single '-'. */
  lemma {:induction false} CollapseFourWords(d: string, k: string, a: string, g: string, w: string)
    requires NoWhiteSpace(d) && NoWhiteSpace(k) && NoWhiteSpace(a) && NoWhiteSpace(g)
    requires k != [] && a != [] && w != [] && AllWhiteSpace(w)
    ensures CollapseWhiteSpace(d + (w + (k + (" " + (a + (" " + g))))))
            == d + ("-" + (k + ("-" + (a + ("-" + g)))))
  {
    var s3 := a + (" " + g);
    var s2 := k + (" " + s3);
    var c3 := a + ("-" + g);
    var c2 := k + ("-" + c3);
    assert CollapseWhiteSpace(s3) == c3 by {
      CollapseNoWhiteSpace(g);
      CollapseWordRun(a, " ", g);
    }
    assert CollapseWhiteSpace(s2) == c2 by {
      assert s3[0] == a[0];
      CollapseWordRun(k, " ", s3);
    }
    assert CollapseWhiteSpace(d + (w + s2)) == d + ("-" + c2) by {
      assert s2[0] == k[0];
      CollapseWordRun(d, w, s2);
    }
  }

  /** Hyphens are not collapsed: "A - B" becomes "A---B". */
  lemma {:induction false} HyphenRunsKept(title: string)
    requires title == "A - B"
    ensures Slug(title) == "A---B"
  {
    StripDisallowedKept(title);
    var a, h, b := "A", "-", "B";
    assert title == a + (" " + (h + (" " + b)));
    HyphenCollapsed(a, h, b);
    TrimByUnchanged("A---B", IsHyphen);
  }

  lemma {:induction false} HyphenCollapsed(a: string, h: string, b: string)
    requires a == "A" && h == "-" && b == "B"
    ensures CollapseWhiteSpace(a + (" " + (h + (" " + b)))) == "A---B"
  {
    assert NoWhiteSpace(a) && NoWhiteSpace(h) && NoWhiteSpace(b);
    CollapseThreeWords(a, h, b);
    assert a + ("-" + (h + ("-" + b))) == "A---B";
  }

  /** Three words without whitespace separated by single spaces are joined
      by single '-'. */
  lemma {:induction false} CollapseThreeWords(a: string, h: string, b: string)
    requires NoWhiteSpace(a) && NoWhiteSpace(h) && NoWhiteSpace(b) && h != []
    ensures CollapseWhiteSpace(a + (" " + (h + (" " + b)))) == a + ("-" + (h + ("-" + b)))
  {
    var s2 := h + (" " + b);
    assert CollapseWhiteSpace(s2) == h + ("-" + b) by {
      CollapseNoWhiteSpace(b);
      CollapseWordRun(h, " ", b);
    }
    assert s2[0] == h[0];
    CollapseWordRun(a, " ", s2);
  }
}
