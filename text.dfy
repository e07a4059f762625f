/** String primitives of the .NET base library, as the core uses them:
    Trim, Trim(char), string.IsNullOrWhiteSpace, Split('\n'), string.Join
    and an ordinal case-insensitive Contains.  Whitespace and case folding
    are the ASCII approximations of the .NET definitions. */
module Text {
  import opened Wrappers

  /** char.IsWhiteSpace restricted to ASCII: space, \t, \n, \v, \f, \r. */
  predicate IsWhiteSpace(c: char) {
    c == ' ' || c == '\t' || c == '\n' || c as int == 0x0B || c as int == 0x0C || c == '\r'
  }

  predicate AllWhiteSpace(s: string) {
    forall k :: 0 <= k < |s| ==> IsWhiteSpace(s[k])
  }

  /** string.IsNullOrWhiteSpace. */
  predicate IsNullOrWhiteSpace(s: Option<string>) {
    s.None? || AllWhiteSpace(s.value)
  }

  predicate IsHyphen(c: char) { c == '-' }

  predicate IsQuote(c: char) { c == '"' }

  predicate IsAsciiLetterOrDigit(c: char) {
    ('a' <= c <= 'z') || ('A' <= c <= 'Z') || ('0' <= c <= '9')
  }

  /** The UTF-16 code units of one character: two for a character outside
      the Basic Multilingual Plane, one otherwise. */
  function Utf16Units(c: char): nat {
    if c as int > 0xFFFF then 2 else 1
  }

  /** string.Length: .NET strings count UTF-16 code units, so the length is
      between the number of characters and twice that. */
  function Utf16Length(s: string): (n: nat)
    ensures |s| <= n <= 2 * |s|
    decreases |s|
  {
    if s == [] then 0 else Utf16Units(s[0]) + Utf16Length(s[1..])
  }

  /** Text within the Basic Multilingual Plane has one unit per character. */
  lemma {:induction false} Utf16LengthBmp(s: string)
    requires forall k :: 0 <= k < |s| ==> s[k] as int <= 0xFFFF
    ensures Utf16Length(s) == |s|
    decreases |s|
  {
    if s != [] {
      Utf16LengthBmp(s[1..]);
    }
  }

  /** TrimStart with a set of characters to drop: removes the longest prefix
      of droppable characters. */
  function TrimStartBy(s: string, drop: char -> bool): (r: string)
    ensures |r| <= |s| && r == s[|s| - |r|..]
    ensures forall k :: 0 <= k < |s| - |r| ==> drop(s[k])
    ensures r == [] || !drop(r[0])
    ensures s != [] && drop(s[0]) ==> |r| < |s|
    decreases |s|
  {
    if s != [] && drop(s[0]) then
      var r := TrimStartBy(s[1..], drop);
      TrimStartStep(s, drop, r);
      r
    else
      assert s[|s| - |s|..] == s;
      s
  }

  /** One step of TrimStartBy: a dropped first character joins the trimmed prefix. */
  lemma TrimStartStep(s: string, drop: char -> bool, r: string)
    requires s != [] && drop(s[0])
    requires |r| <= |s| - 1 && r == s[1..][|s| - 1 - |r|..]
    requires forall k :: 0 <= k < |s| - 1 - |r| ==> drop(s[1..][k])
    ensures |r| < |s| && r == s[|s| - |r|..]
    ensures forall k :: 0 <= k < |s| - |r| ==> drop(s[k])
  {
    forall k | 0 <= k < |s| - |r| ensures drop(s[k]) {
      if k > 0 { assert s[k] == s[1..][k - 1]; }
    }
  }

  /** TrimEnd with a set of characters to drop. */
  function TrimEndBy(s: string, drop: char -> bool): (r: string)
    ensures |r| <= |s| && r == s[..|r|]
    ensures forall k :: |r| <= k < |s| ==> drop(s[k])
    ensures r == [] || !drop(r[|r| - 1])
    decreases |s|
  {
    if s != [] && drop(s[|s| - 1]) then
      var r := TrimEndBy(s[..|s| - 1], drop);
      TrimEndStep(s, s[..|s| - 1], drop, r);
      r
    else
      assert s[..|s|] == s;
      s
  }

  /** One step of TrimEndBy: a dropped last character joins the trimmed suffix. */
  lemma TrimEndStep(s: string, t: string, drop: char -> bool, r: string)
    requires s != [] && drop(s[|s| - 1]) && t == s[..|s| - 1]
    requires |r| <= |t| && r == t[..|r|]
    requires forall k :: |r| <= k < |t| ==> drop(t[k])
    ensures r == s[..|r|]
    ensures forall k :: |r| <= k < |s| ==> drop(s[k])
  {
    forall k | |r| <= k < |s| ensures drop(s[k]) {
      if k < |t| { assert s[k] == t[k]; }
    }
  }

  /** Trim on both ends: the result is the part of s between a droppable
      prefix and a droppable suffix, and neither of its ends is droppable. */
  function TrimBy(s: string, drop: char -> bool): (r: string)
    ensures var i := |s| - |TrimStartBy(s, drop)|;
            i + |r| <= |s| && r == s[i..i + |r|]
            && (forall k :: 0 <= k < i ==> drop(s[k]))
            && (forall k :: i + |r| <= k < |s| ==> drop(s[k]))
    ensures r == [] || (!drop(r[0]) && !drop(r[|r| - 1]))
  {
    var a := TrimStartBy(s, drop);
    var r := TrimEndBy(a, drop);
    TrimByParts(s, a, r, drop);
    r
  }

  /** The two halves of TrimBy compose: r lies inside s between droppable ends. */
  lemma TrimByParts(s: string, a: string, r: string, drop: char -> bool)
    requires |a| <= |s| && a == s[|s| - |a|..]
    requires forall k :: 0 <= k < |s| - |a| ==> drop(s[k])
    requires a == [] || !drop(a[0])
    requires |r| <= |a| && r == a[..|r|]
    requires forall k :: |r| <= k < |a| ==> drop(a[k])
    requires r == [] || !drop(r[|r| - 1])
    ensures var i := |s| - |a|;
            i + |r| <= |s| && r == s[i..i + |r|]
            && (forall k :: 0 <= k < i ==> drop(s[k]))
            && (forall k :: i + |r| <= k < |s| ==> drop(s[k]))
    ensures r == [] || (!drop(r[0]) && !drop(r[|r| - 1]))
  {
    var i := |s| - |a|;
    forall k | i + |r| <= k < |s| ensures drop(s[k]) {
      assert s[k] == a[k - i];
    }
    if r != [] {
      assert r[0] == a[0];
    }
  }

  /** string.Trim(). */
  function Trim(s: string): string {
    TrimBy(s, IsWhiteSpace)
  }

  /** A string with no droppable character at either end is its own trim. */
  lemma {:induction false} TrimByUnchanged(s: string, drop: char -> bool)
    requires s == [] || (!drop(s[0]) && !drop(s[|s| - 1]))
    ensures TrimBy(s, drop) == s
  {
  }

  /** Trimming the front of a concatenation whose head holds a kept
      character trims the head only. */
  lemma {:induction false} TrimStartConcatKept(a: string, b: string, drop: char -> bool, k: nat)
    requires k < |a| && !drop(a[k])
    ensures TrimStartBy(a + b, drop) == TrimStartBy(a, drop) + b
    decreases |a|
  {
    assert (a + b)[0] == a[0];
    if drop(a[0]) {
      assert (a + b)[1..] == a[1..] + b;
      assert a[1..][k - 1] == a[k];
      TrimStartConcatKept(a[1..], b, drop, k - 1);
    }
  }

  /** Trimming the front of a concatenation whose head is all droppable
      removes the head entirely. */
  lemma {:induction false} TrimStartConcatDropped(a: string, b: string, drop: char -> bool)
    requires forall k :: 0 <= k < |a| ==> drop(a[k])
    ensures TrimStartBy(a + b, drop) == TrimStartBy(b, drop)
    decreases |a|
  {
    if a == [] {
      assert a + b == b;
    } else {
      var t := a[1..];
      assert (a + b)[0] == a[0] && (a + b)[1..] == t + b;
      assert TrimStartBy(t + b, drop) == TrimStartBy(b, drop) by {
        forall k | 0 <= k < |t| ensures drop(t[k]) {
          assert t[k] == a[k + 1];
        }
        TrimStartConcatDropped(t, b, drop);
      }
    }
  }

  /** Trimming is idempotent. */
  lemma TrimByIdempotent(s: string, drop: char -> bool)
    ensures TrimBy(TrimBy(s, drop), drop) == TrimBy(s, drop)
  {
    TrimByUnchanged(TrimBy(s, drop), drop);
  }

  /** Trim gives "" exactly for whitespace-only strings. */
  lemma TrimEmptyIffWhiteSpace(s: string)
    ensures Trim(s) == [] <==> AllWhiteSpace(s)
  {
  }

  /** string.Split(sep): the pieces between separators, at least one. */
  function Split(s: string, sep: char): (r: seq<string>)
    ensures |r| >= 1
    ensures forall k :: 0 <= k < |r| ==> sep !in r[k]
    decreases |s|
  {
    if s == [] then [""]
    else if s[0] == sep then [""] + Split(s[1..], sep)
    else
      var rest := Split(s[1..], sep);
      [[s[0]] + rest[0]] + rest[1..]
  }

  /** Splitting a separator-free head followed by a separator peels off the head. */
  lemma {:induction false} SplitAfter(a: string, sep: char, b: string)
    requires sep !in a
    ensures Split(a + [sep] + b, sep) == [a] + Split(b, sep)
    decreases |a|
  {
    if a == [] {
      assert a + [sep] + b == [sep] + b;
      assert ([sep] + b)[1..] == b;
    } else {
      SplitAfter(a[1..], sep, b);
      assert (a + [sep] + b)[1..] == a[1..] + [sep] + b;
      assert [a[0]] + a[1..] == a;
    }
  }

  /** A string without the separator splits into itself alone. */
  lemma {:induction false} SplitNone(a: string, sep: char)
    requires sep !in a
    ensures Split(a, sep) == [a]
    decreases |a|
  {
    if a != [] {
      SplitNone(a[1..], sep);
      assert [a[0]] + a[1..] == a;
    }
  }

  /** The first piece of a split is the text before the first separator. */
  lemma {:induction false} SplitFirst(s: string, sep: char)
    ensures var f := Split(s, sep)[0];
            |f| <= |s| && f == s[..|f|] && (|f| == |s| || s[|f|] == sep)
    decreases |s|
  {
    if s != [] && s[0] != sep {
      SplitFirst(s[1..], sep);
    }
  }

  /** string.Join(sep, xs). */
  function Join(xs: seq<string>, sep: char): string
    decreases |xs|
  {
    if xs == [] then ""
    else if |xs| == 1 then xs[0]
    else xs[0] + [sep] + Join(xs[1..], sep)
  }

  /** Splitting undoes joining, for a non-empty list whose items do not
      contain the separator. */
  lemma {:induction false} SplitJoin(xs: seq<string>, sep: char)
    requires |xs| >= 1
    requires forall k :: 0 <= k < |xs| ==> sep !in xs[k]
    ensures Split(Join(xs, sep), sep) == xs
    decreases |xs|
  {
    if |xs| == 1 {
      SplitNone(xs[0], sep);
    } else {
      SplitJoin(xs[1..], sep);
      SplitAfter(xs[0], sep, Join(xs[1..], sep));
      assert [xs[0]] + xs[1..] == xs;
    }
  }

  /** A joined list contains a character only if the separator is it or an item contains it. */
  lemma {:induction false} JoinChars(xs: seq<string>, sep: char, c: char)
    requires c != sep
    requires forall k :: 0 <= k < |xs| ==> c !in xs[k]
    ensures c !in Join(xs, sep)
    decreases |xs|
  {
    if |xs| > 1 {
      JoinChars(xs[1..], sep, c);
    }
  }

  /** Ordinal upper-casing of one character, ASCII only. */
  function ToUpperAscii(c: char): char {
    if 'a' <= c <= 'z' then (c as int - 32) as char else c
  }

  predicate EqualsIgnoreCase(a: char, b: char) {
    ToUpperAscii(a) == ToUpperAscii(b)
  }

  /** text starts with term under ordinal case-insensitive comparison. */
  predicate StartsWithIgnoreCase(text: string, term: string)
    decreases |term|
  {
    |term| <= |text| &&
    (term == [] || (EqualsIgnoreCase(text[0], term[0]) && StartsWithIgnoreCase(text[1..], term[1..])))
  }

  /** text.Contains(term, StringComparison.OrdinalIgnoreCase). */
  predicate ContainsIgnoreCase(text: string, term: string)
    decreases |text|
  {
    StartsWithIgnoreCase(text, term) || (|text| > |term| && ContainsIgnoreCase(text[1..], term))
  }

  /** Reference definition: some window of text matches term character by character. */
  ghost predicate OccursIgnoreCaseAt(text: string, term: string, i: int) {
    0 <= i && i + |term| <= |text| &&
    forall k :: 0 <= k < |term| ==> EqualsIgnoreCase(text[i + k], term[k])
  }

  lemma {:induction false} StartsWithIgnoreCaseIff(text: string, term: string)
    ensures StartsWithIgnoreCase(text, term) <==> OccursIgnoreCaseAt(text, term, 0)
    decreases |term|
  {
    if term != [] && |term| <= |text| {
      StartsWithIgnoreCaseIff(text[1..], term[1..]);
      if OccursIgnoreCaseAt(text, term, 0) {
        assert OccursIgnoreCaseAt(text[1..], term[1..], 0) by {
          forall k | 0 <= k < |term| - 1
            ensures EqualsIgnoreCase(text[1..][k], term[1..][k])
          {
            assert text[1..][k] == text[k + 1] && term[1..][k] == term[k + 1];
          }
        }
      }
      if StartsWithIgnoreCase(text, term) {
        forall k | 0 <= k < |term|
          ensures EqualsIgnoreCase(text[k], term[k])
        {
          if k > 0 {
            assert text[1..][k - 1] == text[k] && term[1..][k - 1] == term[k];
          }
        }
      }
    }
  }

  /** The case-insensitive Contains holds exactly when the term occurs at some position. */
  lemma {:induction false} ContainsIgnoreCaseIff(text: string, term: string)
    ensures ContainsIgnoreCase(text, term) <==> exists i :: OccursIgnoreCaseAt(text, term, i)
    decreases |text|
  {
    StartsWithIgnoreCaseIff(text, term);
    if |text| > |term| {
      ContainsIgnoreCaseIff(text[1..], term);
      if exists i :: OccursIgnoreCaseAt(text[1..], term, i) {
        var i :| OccursIgnoreCaseAt(text[1..], term, i);
        forall k | 0 <= k < |term|
          ensures EqualsIgnoreCase(text[i + 1 + k], term[k])
        {
          assert text[1..][i + k] == text[i + 1 + k];
        }
        assert OccursIgnoreCaseAt(text, term, i + 1);
      }
      if exists i :: OccursIgnoreCaseAt(text, term, i) {
        var i :| OccursIgnoreCaseAt(text, term, i);
        if i > 0 {
          forall k | 0 <= k < |term|
            ensures EqualsIgnoreCase(text[1..][i - 1 + k], term[k])
          {
            assert text[1..][i - 1 + k] == text[i + k];
          }
          assert OccursIgnoreCaseAt(text[1..], term, i - 1);
        }
      }
    } else {
      if exists i :: OccursIgnoreCaseAt(text, term, i) {
        var i :| OccursIgnoreCaseAt(text, term, i);
        assert i == 0;
      }
    }
  }
}
