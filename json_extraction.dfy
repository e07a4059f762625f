/** The JSON extraction of BlogPostService: the balancing-group regular
    expression  \{(?:[^{}]|(?<open>\{)|(?<-open>\}))+(?(open)(?!))\}  run with
    Regex.Match.  Every loop item has exactly one applicable alternative (a
    non-brace character, an opening brace that pushes, or a closing brace that
    pops, which fails on an empty stack), so the only backtracking is over the
    number of items, and from a given '{' the match ends at the first '}' that
    brings the depth back to zero; at least one character must lie between the
    outer braces.  Regex.Match reports the leftmost start that succeeds.
    Braces inside JSON string literals are counted like any other. */
module JsonExtraction {
  import opened Wrappers

  function Delta(c: char): int {
    if c == '{' then 1 else if c == '}' then -1 else 0
  }

  /** Number of '{' minus number of '}' in t. */
  function Depth(t: string): int
    decreases |t|
  {
    if t == [] then 0 else Depth(t[..|t| - 1]) + Delta(t[|t| - 1])
  }

  /** What the expression matches when anchored at both ends of t: a '{', at
      least one character, a '}', balanced overall, and every proper non-empty
      prefix holding more '{' than '}'. */
  ghost predicate IsObject(t: string) {
    && |t| >= 3
    && t[0] == '{'
    && t[|t| - 1] == '}'
    && Depth(t) == 0
    && forall k :: 0 < k < |t| ==> Depth(t[..k]) > 0
  }

  /** A successful match: its position and its text (Match.Index, Match.Value). */
  datatype Match = Match(index: nat, value: string)

  /** No substring of s is matched. */
  ghost predicate NoMatch(s: string) {
    forall p, q :: 0 <= p < q <= |s| ==> !IsObject(s[p..q])
  }

  /** No match starts before position n. */
  ghost predicate NoMatchBefore(s: string, n: int) {
    forall p, q :: 0 <= p < n && p < q <= |s| ==> !IsObject(s[p..q])
  }

  /** m is the match Regex.Match returns: a matched substring of s with no
      matched substring starting further left. */
  ghost predicate IsFirstMatch(s: string, m: Match) {
    && m.index + |m.value| <= |s|
    && s[m.index..m.index + |m.value|] == m.value
    && IsObject(m.value)
    && NoMatchBefore(s, m.index)
  }

  lemma DepthSnoc(s: string, p: int, i: int)
    requires 0 <= p <= i < |s|
    ensures Depth(s[p..i + 1]) == Depth(s[p..i]) + Delta(s[i])
  {
    assert s[p..i + 1][..i - p] == s[p..i];
  }

  /** Scans from the '{' at start, counting depth, until the '}' that closes it. */
  method ScanObject(s: string, start: nat) returns (end: Option<nat>)
    requires start < |s| && s[start] == '{'
    ensures end.Some? ==> start < end.value <= |s| && IsObject(s[start..end.value])
    ensures end.None? ==> forall q :: start < q <= |s| ==> !IsObject(s[start..q])
  {
    var depth := 0;
    var i := start + 1;
    assert Depth(s[start..start + 1]) == 1 by {
      assert s[start..start + 1][..0] == [];
    }
    while i < |s|
      invariant start + 1 <= i <= |s|
      invariant depth == Depth(s[start..i]) - 1
      invariant forall k :: start < k <= i ==> Depth(s[start..k]) > 0
    {
      DepthSnoc(s, start, i);
      if s[i] == '{' {
        depth := depth + 1;
      } else if s[i] == '}' {
        if depth == 0 {
          if i == start + 1 {
            // "{}": the expression needs an item between the braces, and any
            // longer candidate has the balanced prefix "{}".
            forall q | start < q <= |s|
              ensures !IsObject(s[start..q])
            {
              if q > start + 2 {
                assert s[start..q][..2] == s[start..start + 2];
              }
            }
            return None;
          }
          var t := s[start..i + 1];
          forall k | 0 < k < |t|
            ensures Depth(t[..k]) > 0
          {
            assert t[..k] == s[start..start + k];
          }
          return Some(i + 1);
        }
        depth := depth - 1;
      }
      i := i + 1;
    }
    return None;
  }

  /** Regex.Match: tries each start position from the left. */
  method ExtractJson(s: string) returns (m: Option<Match>)
    ensures m.None? <==> NoMatch(s)
    ensures m.Some? ==> IsFirstMatch(s, m.value)
  {
    var start := 0;
    while start < |s|
      invariant 0 <= start <= |s|
      invariant NoMatchBefore(s, start)
    {
      if s[start] == '{' {
        var end := ScanObject(s, start);
        if end.Some? {
          m := Some(Match(start, s[start..end.value]));
          assert !IsObject(s[start..end.value]) ==> false;
          return;
        }
      } else {
        forall q | start < q <= |s| ensures !IsObject(s[start..q]) {
          assert s[start..q][0] == s[start];
        }
      }
      start := start + 1;
    }
    return None;
  }

  /** A match has depth zero only at its end, so no proper prefix of it is a match. */
  lemma ObjectPrefix(t: string, k: nat)
    ensures IsObject(t) && 0 < k < |t| ==> !IsObject(t[..k])
  {
    if IsObject(t) && 0 < k < |t| {
      assert Depth(t[..k]) > 0;
    }
  }

  /** A match lying in s cannot start before a position no match starts before. */
  lemma NotLeftOf(s: string, n: int, m: Match)
    ensures (NoMatchBefore(s, n) && m.index < n && m.index + |m.value| <= |s|
             && s[m.index..m.index + |m.value|] == m.value) ==> !IsObject(m.value)
  {
  }

  /** Of two substrings of s starting at the same position, the shorter is a prefix of the longer. */
  lemma SamePlacePrefix(s: string, m1: Match, m2: Match)
    ensures (m1.index == m2.index && |m1.value| < |m2.value| && m2.index + |m2.value| <= |s|
             && s[m1.index..m1.index + |m1.value|] == m1.value
             && s[m2.index..m2.index + |m2.value|] == m2.value)
            ==> m2.value[..|m1.value|] == m1.value
  {
  }

  /** The first match is unique: the spec of ExtractJson determines its result. */
  lemma FirstMatchUnique(s: string, m1: Match, m2: Match)
    requires IsFirstMatch(s, m1) && IsFirstMatch(s, m2)
    ensures m1 == m2
  {
    NotLeftOf(s, m2.index, m1);
    NotLeftOf(s, m1.index, m2);
    SamePlacePrefix(s, m1, m2);
    SamePlacePrefix(s, m2, m1);
    ObjectPrefix(m2.value, |m1.value|);
    ObjectPrefix(m1.value, |m2.value|);
  }

  lemma {:induction false} FirstMatchFrom(s: string, n: nat)
    requires n <= |s| && NoMatchBefore(s, n) && !NoMatch(s)
    ensures exists m :: IsFirstMatch(s, m)
    decreases |s| - n
  {
    if exists q :: n < q <= |s| && IsObject(s[n..q]) {
      var q :| n < q <= |s| && IsObject(s[n..q]);
      assert IsFirstMatch(s, Match(n, s[n..q]));
    } else if n < |s| {
      FirstMatchFrom(s, n + 1);
    }
  }

  /** Whenever some substring is matched, a first match exists. */
  lemma FirstMatchExists(s: string)
    requires !NoMatch(s)
    ensures exists m :: IsFirstMatch(s, m)
  {
    FirstMatchFrom(s, 0);
  }

  /** A bare "{}" is never matched. */
  lemma EmptyBracesNoMatch()
    ensures NoMatch("{}")
  {
  }

  /** Prose around the object does not disturb extraction, provided the text
      before it holds no '{'. */
  lemma ExtractFromProse(before: string, t: string, after: string)
    requires '{' !in before && IsObject(t)
    ensures IsFirstMatch(before + t + after, Match(|before|, t))
  {
    var s := before + t + after;
    assert s[|before|..|before| + |t|] == t;
    forall p, q | 0 <= p < |before| && p < q <= |s|
      ensures !IsObject(s[p..q])
    {
      assert s[p..q][0] == before[p];
    }
  }

  /** A '}' inside a string literal closes the object early: the match of
      {"s":"}"} is {"s":"}. */
  lemma BraceInStringLiteral()
    ensures IsFirstMatch("{\"s\":\"}\"}", Match(0, "{\"s\":\"}"))
  {
    var t := "{\"s\":\"}";
    DepthSnoc(t, 0, 0); DepthSnoc(t, 0, 1); DepthSnoc(t, 0, 2); DepthSnoc(t, 0, 3);
    DepthSnoc(t, 0, 4); DepthSnoc(t, 0, 5); DepthSnoc(t, 0, 6);
    assert t[0..0] == [] && t[0..7] == t;
    forall k | 0 < k < |t| ensures Depth(t[..k]) > 0 {
      assert t[..k] == t[0..k];
    }
  }
}
