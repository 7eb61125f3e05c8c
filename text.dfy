/** The Python `str` operations the feature extractor relies on, over ASCII:
    `count`, `in`, `endswith`, `split`, `lower`, `isdigit`, `isalpha` and the
    slice `s[1:]`; with `StartsWith`, on which `Contains` and `EndsWith` are
    built, and `Join`, the inverse the `split` round trip is stated against. */
module Text {

  /** `c.isdigit()`, restricted to ASCII. */
  predicate IsDigit(c: char) { '0' <= c <= '9' }

  /** `c.isalpha()`, restricted to ASCII. */
  predicate IsAlpha(c: char) { 'a' <= c <= 'z' || 'A' <= c <= 'Z' }

  /** `c.lower()` for one ASCII character; anything else is left as it is. */
  function LowerChar(c: char): (d: char)
    ensures !('A' <= d <= 'Z')
    ensures IsAlpha(c) <==> IsAlpha(d)
    ensures !IsAlpha(c) ==> d == c
    ensures IsAlpha(c) ==> d == c || d as int == c as int + 32
  {
    if 'A' <= c <= 'Z' then (c as int + 32) as char else c
  }

  /** `s.lower()`. */
  function Lower(s: string): (r: string)
  {
    seq(|s|, i requires 0 <= i < |s| => LowerChar(s[i]))
  }

  /** `s[1:]`: empty for the empty string. */
  function Tail(s: string): (r: string)
  {
    if s == [] then [] else s[1..]
  }

  /** `s.count(c)` for a one-character needle. */
  function Count(s: string, c: char): (n: nat)
    ensures n <= |s|
    ensures n == 0 <==> c !in s
  {
    if s == [] then 0 else (if s[0] == c then 1 else 0) + Count(s[1..], c)
  }

  /** `sum(p(ch) for ch in s)`: the number of characters of `s` that satisfy `p`. */
  function CountIf(s: string, p: char -> bool): (n: nat)
    ensures n <= |s|
    ensures n == 0 <==> forall i :: 0 <= i < |s| ==> !p(s[i])
  {
    if s == [] then 0 else (if p(s[0]) then 1 else 0) + CountIf(s[1..], p)
  }

  /** `s.startswith(t)`. */
  predicate StartsWith(s: string, t: string)
  {
    |t| <= |s| && s[..|t|] == t
  }

  /** `s.endswith(t)`. */
  predicate EndsWith(s: string, t: string)
  {
    |t| <= |s| && s[|s| - |t|..] == t
  }

  /** `t in s`: `t` occurs in `s` at some position. */
  predicate Contains(s: string, t: string)
  {
    exists i :: 0 <= i <= |s| && StartsWith(s[i..], t)
  }

  /** `sep.join(parts)` for a one-character separator. */
  function Join(parts: seq<string>, sep: char): (s: string)
  {
    if |parts| == 0 then []
    else if |parts| == 1 then parts[0]
    else parts[0] + [sep] + Join(parts[1..], sep)
  }

  /** `s.split(sep)` for a one-character separator: always at least one
      part. */
  function Split(s: string, sep: char): (parts: seq<string>)
    ensures |parts| >= 1
  {
    if s == [] then [[]]
    else
      var rest := Split(s[1..], sep);
      if s[0] == sep then [[]] + rest
      else [[s[0]] + rest[0]] + rest[1..]
  }

  // ---------------------------------------------------------------------
  // Lemmas about the operations above

  /** Joining a part in front of at least one more part. */
  lemma JoinCons(p: string, rest: seq<string>, sep: char)
    requires |rest| >= 1
    ensures Join([p] + rest, sep) == p + [sep] + Join(rest, sep)
  {
    assert ([p] + rest)[1..] == rest;
  }

  /** Joining, after a character is put in front of the first part. */
  lemma JoinOntoFirst(c: char, parts: seq<string>, sep: char)
    requires |parts| >= 1
    ensures Join([[c] + parts[0]] + parts[1..], sep) == [c] + Join(parts, sep)
  {
    if |parts| > 1 {
      JoinCons([c] + parts[0], parts[1..], sep);
      assert parts == [parts[0]] + parts[1..];
      JoinCons(parts[0], parts[1..], sep);
    }
  }

  /** Joining the parts of a split gives back the string. */
  lemma {:induction false} SplitJoin(s: string, sep: char)
    ensures Join(Split(s, sep), sep) == s
  {
    if s != [] {
      var rest := Split(s[1..], sep);
      SplitJoin(s[1..], sep);
      if s[0] == sep {
        JoinCons([], rest, sep);
      } else {
        JoinOntoFirst(s[0], rest, sep);
      }
      assert s == [s[0]] + s[1..];
    }
  }

  /** A split has one more part than the string has separators. */
  lemma {:induction false} SplitCount(s: string, sep: char)
    ensures |Split(s, sep)| == Count(s, sep) + 1
  {
    if s != [] {
      SplitCount(s[1..], sep);
    }
  }

  /** No part of a split holds the separator. */
  lemma {:induction false} SplitPartsSeparatorFree(s: string, sep: char)
    ensures forall i :: 0 <= i < |Split(s, sep)| ==> sep !in Split(s, sep)[i]
  {
    if s != [] {
      var rest := Split(s[1..], sep);
      SplitPartsSeparatorFree(s[1..], sep);
      if s[0] != sep {
        assert sep !in [s[0]] + rest[0];
        assert Split(s, sep) == [[s[0]] + rest[0]] + rest[1..];
      }
    }
  }

  /** A string without the separator splits into itself alone. */
  lemma SplitWithoutSeparator(s: string, sep: char)
    requires sep !in s
    ensures Split(s, sep) == [s]
  {
    var parts := Split(s, sep);
    SplitCount(s, sep);
    SplitJoin(s, sep);
    assert Join(parts, sep) == parts[0];
  }

  /** The first part of a split is the text before the first separator, and
      the remaining parts are the split of what follows that separator. */
  lemma {:induction false} SplitFirst(s: string, sep: char)
    requires sep in s
    ensures var parts := Split(s, sep);
      var n := |parts[0]|;
      n < |s| && s[..n] == parts[0] && sep !in parts[0] && s[n] == sep
      && Split(s[n + 1..], sep) == parts[1..]
  {
    SplitPartsSeparatorFree(s, sep);
    var parts := Split(s, sep);
    var rest := Split(s[1..], sep);
    if s[0] == sep {
      assert parts == [[]] + rest;
    } else {
      assert parts == [[s[0]] + rest[0]] + rest[1..];
      assert sep in s[1..] by {
        var k :| 0 <= k < |s| && s[k] == sep;
        assert s[1..][k - 1] == sep;
      }
      SplitFirst(s[1..], sep);
      var n' := |rest[0]|;
      assert s[1..][n' + 1..] == s[n' + 2..];
      assert s[..n' + 1] == [s[0]] + s[1..][..n'];
    }
  }

  /** Splitting at a first separator found at index `n`. */
  lemma SplitAt(s: string, sep: char, n: nat)
    requires n < |s| && s[n] == sep && sep !in s[..n]
    ensures Split(s, sep) == [s[..n]] + Split(s[n + 1..], sep)
  {
    assert s[..n + 1][n] == sep;
    SplitFirst(s, sep);
  }

  /** The first part of a split is a prefix of the string. */
  lemma SplitHead(s: string, sep: char)
    ensures StartsWith(s, Split(s, sep)[0])
  {
    if sep in s {
      SplitFirst(s, sep);
    } else {
      SplitWithoutSeparator(s, sep);
    }
  }

  /** The last part of a split is the text after the last separator. */
  lemma {:induction false} SplitLast(s: string, sep: char)
    requires sep in s
    ensures var parts := Split(s, sep);
      var last := parts[|parts| - 1];
      |last| < |s| && s[|s| - |last| - 1] == sep && s[|s| - |last|..] == last && sep !in last
  {
    SplitPartsSeparatorFree(s, sep);
    var rest := Split(s[1..], sep);
    if sep in s[1..] {
      SplitCount(s[1..], sep);
      SplitLast(s[1..], sep);
      var last := rest[|rest| - 1];
      assert s[1..][|s| - 1 - |last|..] == s[|s| - |last|..];
    } else {
      SplitWithoutSeparator(s[1..], sep);
      assert s[0] == sep;
    }
  }

  /** No separator from index `a` on. */
  lemma SeparatorFreeFrom(s: string, sep: char, a: nat)
    requires a <= |s| && sep !in s[a..]
    ensures forall j :: a <= j < |s| ==> s[j] != sep
  {
    forall j | a <= j < |s| ensures s[j] != sep {
      assert s[a..][j - a] == s[j];
    }
  }

  /** Two positions just after a separator with no separator following
      either are the same position: the one after the last separator. */
  lemma AfterLastSeparator(s: string, sep: char, a: nat, b: nat)
    requires 0 < a <= |s| && s[a - 1] == sep && forall j :: a <= j < |s| ==> s[j] != sep
    requires 0 < b <= |s| && s[b - 1] == sep && forall j :: b <= j < |s| ==> s[j] != sep
    ensures a == b
  {
  }

  /** The string ends in the last separator followed by the last part. */
  lemma EndsWithLastPart(s: string, sep: char)
    requires sep in s
    ensures EndsWith(s, [sep] + Split(s, sep)[|Split(s, sep)| - 1])
  {
    var parts := Split(s, sep);
    var last := parts[|parts| - 1];
    SplitLast(s, sep);
    assert s[|s| - |last| - 1..] == [sep] + last;
  }

  /** A string ending in the separator followed by a separator-free `t` has
      `t` as the last part of its split. */
  lemma LastPartOfSuffix(s: string, sep: char, t: string)
    requires sep !in t
    requires EndsWith(s, [sep] + t)
    ensures sep in s
    ensures Split(s, sep)[|Split(s, sep)| - 1] == t
  {
    var a := |s| - |t|;
    assert s[a - 1..] == [sep] + t;
    assert s[a - 1] == sep && s[a..] == t;
    SplitLast(s, sep);
    var parts := Split(s, sep);
    var last := parts[|parts| - 1];
    var b := |s| - |last|;
    SeparatorFreeFrom(s, sep, a);
    SeparatorFreeFrom(s, sep, b);
    AfterLastSeparator(s, sep, a, b);
  }

  /** `s.count(c)` splits over concatenation. */
  lemma {:induction false} CountAppend(s: string, t: string, c: char)
    ensures Count(s + t, c) == Count(s, c) + Count(t, c)
  {
    if s != [] {
      assert (s + t)[0] == s[0];
      assert (s + t)[1..] == s[1..] + t;
      assert Count(s + t, c) == (if s[0] == c then 1 else 0) + Count(s[1..] + t, c);
      CountAppend(s[1..], t, c);
    } else {
      assert s + t == t;
    }
  }

  /** A word without upper-case letters found in a string is found in its
      lower-case form too. */
  lemma ContainsLowerWord(s: string, t: string, i: nat)
    requires i + |t| <= |s| && s[i..i + |t|] == t
    requires forall k :: 0 <= k < |t| ==> !('A' <= t[k] <= 'Z')
    ensures Contains(Lower(s), t)
  {
    forall k | 0 <= k < |t| ensures Lower(s)[i..][k] == t[k] {
      assert s[i + k] == t[k];
    }
    assert Lower(s)[i..][..|t|] == t;
  }

  /** Lower-casing twice is lower-casing once. */
  lemma LowerIdempotent(s: string)
    ensures Lower(Lower(s)) == Lower(s)
  {
  }

  /** Lower-casing commutes with concatenation. */
  lemma LowerAppend(s: string, t: string)
    ensures Lower(s + t) == Lower(s) + Lower(t)
  {
  }

  /** A substring stays a substring when text is added on either side. */
  lemma ContainsExtend(s: string, t: string, before: string, after: string)
    requires Contains(s, t)
    ensures Contains(before + s + after, t)
  {
    var i :| 0 <= i <= |s| && StartsWith(s[i..], t);
    var w := before + s + after;
    assert w[|before| + i..][..|t|] == s[i..][..|t|];
  }
}
