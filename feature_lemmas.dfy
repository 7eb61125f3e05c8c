/** What `lexical_features` promises: bounds, flags that are bits, the
    counting identities behind each feature, the fixed key order, and the
    meaning of each host and path feature. */
module FeatureLemmas {
  import opened Text
  import opened UrlParse
  import opened FeatureUtils

  // ---------------------------------------------------------------------
  // Character counts and ratios

  /** How many of the counted character classes `c` falls in. */
  function ClassesOf(c: char): (n: nat)
  {
    Flag(c == '.') + Flag(c == '-') + Flag(c == '_')
    + Flag(IsDigit(c)) + Flag(IsAlpha(c)) + Flag(IsSpecialChar(c))
  }

  /** The counted character classes are pairwise disjoint. */
  lemma ClassesDisjoint(c: char)
    ensures ClassesOf(c) <= 1
  {
  }

  /** So their counts over a string together never exceed its length. */
  lemma {:induction false} CharClassesDisjoint(s: string)
    ensures Count(s, '.') + Count(s, '-') + Count(s, '_')
            + CountIf(s, IsDigit) + CountIf(s, IsAlpha) + CountIf(s, IsSpecialChar) <= |s|
  {
    if s != [] {
      var t := s[1..];
      CharClassesDisjoint(t);
      ClassesDisjoint(s[0]);
      assert Count(s, '.') + Count(s, '-') + Count(s, '_')
            + CountIf(s, IsDigit) + CountIf(s, IsAlpha) + CountIf(s, IsSpecialChar)
        == ClassesOf(s[0]) + Count(t, '.') + Count(t, '-') + Count(t, '_')
            + CountIf(t, IsDigit) + CountIf(t, IsAlpha) + CountIf(t, IsSpecialChar);
    }
  }

  /** Every count is at most the URL length, and digits and letters together
      are too. */
  lemma CountsBounded(parse: Parser, log2: real -> real, url: string)
    ensures var f := LexicalFeatures(parse, log2, url);
      f.countDots <= f.urlLen && f.countHyphens <= f.urlLen && f.countUnderscores <= f.urlLen
      && f.countDigits <= f.urlLen && f.countSpecialChars <= f.urlLen
      && f.countDigits + CountIf(url, IsAlpha) <= f.urlLen
  {
    CharClassesDisjoint(url);
  }

  /** Two counts that together do not exceed `n` give ratios in [0, 1]
      whose sum is at most 1. */
  lemma RatioPair(a: nat, b: nat, n: nat)
    requires a + b <= n
    ensures 0.0 <= Ratio(a, n) <= 1.0 && 0.0 <= Ratio(b, n) <= 1.0
    ensures Ratio(a, n) + Ratio(b, n) <= 1.0
  {
    if n > 0 {
      QuotientsBounded(a as real, b as real, n as real);
    }
  }

  /** The real-arithmetic core of `RatioPair`. */
  lemma QuotientsBounded(x: real, y: real, z: real)
    requires 0.0 <= x && 0.0 <= y && x + y <= z && z > 0.0
    ensures 0.0 <= x / z && 0.0 <= y / z && x / z + y / z <= 1.0
  {
    var w := 1.0 / z;
    assert x / z == x * w && y / z == y * w;
    assert x * w + y * w == (x + y) * w;
    assert (z - (x + y)) * w >= 0.0;
    assert z * w == 1.0;
  }

  /** Both ratios lie in [0, 1], together they are at most 1, and both are 0
      for the empty URL. */
  lemma RatiosBounded(parse: Parser, log2: real -> real, url: string)
    ensures var f := LexicalFeatures(parse, log2, url);
      0.0 <= f.digitsRatio <= 1.0 && 0.0 <= f.lettersRatio <= 1.0
      && f.digitsRatio + f.lettersRatio <= 1.0
      && (f.urlLen == 0 ==> f.digitsRatio == 0.0 && f.lettersRatio == 0.0)
  {
    CharClassesDisjoint(url);
    RatioPair(CountIf(url, IsDigit), CountIf(url, IsAlpha), |url|);
  }

  // ---------------------------------------------------------------------
  // Flags

  /** Every `has_*` and `contains_*` feature is 0 or 1. */
  lemma FlagsAreBits(parse: Parser, log2: real -> real, url: string)
    ensures var f := LexicalFeatures(parse, log2, url);
      f.hasHttpsScheme <= 1 && f.hasHttpsToken <= 1 && f.hasIpHost <= 1
      && f.hasPrefixSuffix <= 1 && f.hasDoubleSlashInPath <= 1
      && f.hasSuspiciousTld <= 1 && f.containsSuspiciousWord <= 1
  {
  }

  /** `has_prefix_suffix` is 1 exactly when a hyphen occurs in the host
      before its first dot; in particular the host then contains a hyphen. */
  lemma PrefixSuffixMeaning(host: string)
    ensures HasPrefixSuffix(host) <==>
      exists i :: 0 <= i < |host| && host[i] == '-' && '.' !in host[..i]
    ensures HasPrefixSuffix(host) ==> '-' in host
  {
    var firstLabel := Split(host, '.')[0];
    SplitPartsSeparatorFree(host, '.');
    SplitHead(host, '.');
    assert host[..|firstLabel|] == firstLabel;
    if HasPrefixSuffix(host) {
      var i :| 0 <= i < |firstLabel| && firstLabel[i] == '-';
      assert host[i] == '-';
      assert host[..i] == firstLabel[..i];
    }
    if exists i :: 0 <= i < |host| && host[i] == '-' && '.' !in host[..i] {
      var i :| 0 <= i < |host| && host[i] == '-' && '.' !in host[..i];
      if '.' in host {
        SplitFirst(host, '.');
      } else {
        SplitWithoutSeparator(host, '.');
      }
      assert firstLabel[i] == '-';
    }
  }

  /** Each listed suffix is a dot followed by a dot-free label. */
  lemma SuspiciousTldShape(i: nat)
    requires i < |SuspiciousTlds|
    ensures var t := SuspiciousTlds[i];
      t == ['.'] + t[1..] && '.' !in t[1..]
  {
  }

  /** A host ending in a listed suffix has that suffix's label last. */
  lemma SuspiciousTldIsLastLabel(host: string, i: nat)
    requires i < |SuspiciousTlds| && EndsWith(host, SuspiciousTlds[i])
    ensures '.' in host && ['.'] + LastLabel(host) == SuspiciousTlds[i]
  {
    SuspiciousTldShape(i);
    var t := SuspiciousTlds[i];
    LastPartOfSuffix(host, '.', t[1..]);
  }

  /** A host whose last label, dot in front, is listed ends in that suffix. */
  lemma LastLabelIsSuspiciousTld(host: string, i: nat)
    requires '.' in host && i < |SuspiciousTlds| && SuspiciousTlds[i] == ['.'] + LastLabel(host)
    ensures EndsWith(host, SuspiciousTlds[i])
  {
    EndsWithLastPart(host, '.');
  }

  /** `has_suspicious_tld` is 1 exactly when the host has a dot and its last
      label, with the dot in front, is one of the listed suffixes; in
      particular the host then contains a dot. */
  lemma SuspiciousTldMeaning(host: string)
    ensures HasSuspiciousTld(host) <==> '.' in host && ['.'] + LastLabel(host) in SuspiciousTlds
  {
    if HasSuspiciousTld(host) {
      var i :| 0 <= i < |SuspiciousTlds| && EndsWith(host, SuspiciousTlds[i]);
      SuspiciousTldIsLastLabel(host, i);
    }
    if '.' in host && ['.'] + LastLabel(host) in SuspiciousTlds {
      var i :| 0 <= i < |SuspiciousTlds| && SuspiciousTlds[i] == ['.'] + LastLabel(host);
      LastLabelIsSuspiciousTld(host, i);
    }
  }

  /** Appending text on either side of a URL never clears
      `contains_suspicious_word`, and the flag ignores letter case. */
  lemma SuspiciousWordMonotone(url: string, before: string, after: string)
    ensures ContainsSuspiciousWord(url) ==> ContainsSuspiciousWord(before + url + after)
    ensures ContainsSuspiciousWord(Lower(url)) == ContainsSuspiciousWord(url)
  {
    LowerIdempotent(url);
    if ContainsSuspiciousWord(url) {
      var w :| w in SuspiciousWords && Contains(Lower(url), w);
      LowerAppend(before + url, after);
      LowerAppend(before, url);
      ContainsExtend(Lower(url), w, Lower(before), Lower(after));
    }
  }

  /** `has_double_slash_in_path` is 1 only when the path holds two slashes. */
  lemma DoubleSlashNeedsTwoSlashes(path: string)
    requires Contains(Tail(path), "//")
    ensures Count(path, '/') >= 2
  {
    var i :| 0 <= i <= |Tail(path)| && StartsWith(Tail(path)[i..], "//");
    assert path == path[..i + 1] + path[i + 1..i + 3] + path[i + 3..];
    assert path[i + 1..i + 3] == "//";
    CountAppend(path[..i + 1] + path[i + 1..i + 3], path[i + 3..], '/');
    CountAppend(path[..i + 1], path[i + 1..i + 3], '/');
  }

  // ---------------------------------------------------------------------
  // The IPv4 pattern

  /** One to three digits. */
  predicate DigitLabel(p: string)
  {
    1 <= |p| <= 3 && AllDigits(p)
  }

  /** The dot-split of `h` has `k` parts, each of one to three digits. */
  predicate DigitLabels(h: string, k: nat)
  {
    var parts := Split(h, '.');
    |parts| == k && forall i :: 0 <= i < k ==> DigitLabel(parts[i])
  }

  /** One to three leading digits hold no dot. */
  lemma DigitsHaveNoDot(h: string, n: nat)
    requires n <= |h| && AllDigits(h[..n])
    ensures '.' !in h[..n]
  {
    forall j | 0 <= j < n ensures h[..n][j] != '.' { assert IsDigit(h[..n][j]); }
  }

  /** A dot-free string is a single label. */
  lemma SingleLabel(h: string)
    requires 1 <= |h| <= 3 && AllDigits(h) && '.' !in h
    ensures DigitLabels(h, 1)
  {
    SplitWithoutSeparator(h, '.');
  }

  /** A digit label, a dot and `k - 1` digit labels make `k` digit labels. */
  lemma LabelThenLabels(h: string, n: nat, k: nat)
    requires k > 1
    requires 1 <= n <= 3 && n < |h| && AllDigits(h[..n]) && '.' !in h[..n] && h[n] == '.'
    requires DigitLabels(h[n + 1..], k - 1)
    ensures DigitLabels(h, k)
  {
    SplitAt(h, '.', n);
    assert Split(h, '.') == [h[..n]] + Split(h[n + 1..], '.');
  }

  /** What a first group of `n` digits says about `h`. */
  lemma GroupThenFacts(h: string, n: nat, k: nat)
    requires GroupThen(h, n, k)
    ensures n <= |h| && AllDigits(h[..n])
    ensures k <= 1 ==> n == |h|
    ensures k > 1 ==> n < |h| && h[n] == '.' && DigitGroups(h[n + 1..], k - 1)
  {
  }

  /** The group the regular expression takes first, when it matches. */
  lemma FirstGroupOf(h: string, k: nat) returns (n: nat)
    requires DigitGroups(h, k)
    ensures 1 <= n <= 3 && GroupThen(h, n, k)
  {
    if GroupThen(h, 1, k) {
      n := 1;
    } else if GroupThen(h, 2, k) {
      n := 2;
    } else {
      n := 3;
    }
  }

  /** A group of one to three digits before the match of the remaining
      groups. */
  lemma GroupThenIntro(h: string, n: nat, k: nat)
    requires 1 <= n <= 3 && n <= |h| && AllDigits(h[..n])
    requires k == 1 ==> n == |h|
    requires k > 1 ==> n < |h| && h[n] == '.' && DigitGroups(h[n + 1..], k - 1)
    requires k >= 1
    ensures DigitGroups(h, k)
  {
    assert GroupThen(h, n, k);
  }

  /** A string the regular expression matches splits into `k` digit labels. */
  lemma {:induction false} DigitGroupsHaveLabels(h: string, k: nat)
    requires DigitGroups(h, k)
    ensures DigitLabels(h, k)
    decreases k
  {
    var n := FirstGroupOf(h, k);
    GroupThenFacts(h, n, k);
    DigitsHaveNoDot(h, n);
    if k == 1 {
      assert h[..n] == h;
      SingleLabel(h);
    } else {
      DigitGroupsHaveLabels(h[n + 1..], k - 1);
      LabelThenLabels(h, n, k);
    }
  }

  /** The first of several labels, the dot after it, and the rest. */
  lemma LabelsAfterFirst(h: string, k: nat)
    requires k > 1 && DigitLabels(h, k)
    ensures var n := |Split(h, '.')[0]|;
      1 <= n <= 3 && n < |h| && AllDigits(h[..n]) && h[n] == '.' && DigitLabels(h[n + 1..], k - 1)
  {
    var parts := Split(h, '.');
    SplitCount(h, '.');
    SplitFirst(h, '.');
    assert DigitLabel(parts[0]);
    var rest := parts[1..];
    forall i | 0 <= i < k - 1 ensures DigitLabel(rest[i]) {
      assert rest[i] == parts[i + 1];
    }
  }

  /** A single digit label is matched by a single group. */
  lemma SingleLabelMatches(h: string)
    requires DigitLabels(h, 1)
    ensures DigitGroups(h, 1)
  {
    SplitCount(h, '.');
    SplitWithoutSeparator(h, '.');
    assert Split(h, '.')[0] == h;
    assert DigitLabel(h);
    assert h[..|h|] == h;
    GroupThenIntro(h, |h|, 1);
  }

  /** A string that splits into `k` digit labels is matched by the regular
      expression. */
  lemma {:induction false} LabelsMatchDigitGroups(h: string, k: nat)
    requires k >= 1 && DigitLabels(h, k)
    ensures DigitGroups(h, k)
    decreases k
  {
    if k == 1 {
      SingleLabelMatches(h);
    } else {
      var n := |Split(h, '.')[0]|;
      LabelsAfterFirst(h, k);
      LabelsMatchDigitGroups(h[n + 1..], k - 1);
      GroupThenIntro(h, n, k);
    }
  }

  /** `k` digit groups take between `2k - 1` and `4k - 1` characters. */
  lemma {:induction false} DigitGroupsLength(h: string, k: nat)
    requires DigitGroups(h, k)
    ensures 2 * k - 1 <= |h| <= 4 * k - 1
    decreases k
  {
    var n := FirstGroupOf(h, k);
    GroupThenFacts(h, n, k);
    if k > 1 {
      DigitGroupsLength(h[n + 1..], k - 1);
    }
  }

  /** A host that `has_ip_host` accepts is four groups of one to three
      digits joined by exactly three dots, so it is 7 to 15 characters long;
      and every such host is accepted. */
  lemma IpHostShape(host: string)
    ensures IsIpv4Host(host) <==> DigitLabels(host, 4)
    ensures IsIpv4Host(host) ==> Count(host, '.') == 3 && 7 <= |host| <= 15
  {
    if IsIpv4Host(host) {
      DigitGroupsHaveLabels(host, 4);
      SplitCount(host, '.');
      DigitGroupsLength(host, 4);
    }
    if DigitLabels(host, 4) {
      LabelsMatchDigitGroups(host, 4);
    }
  }

  // ---------------------------------------------------------------------
  // Host and path lengths

  /** `tld_len` is the length of the text after the host's last dot, and 0
      when the host has no dot; either way it is at most `host_len`. */
  lemma TldIsLastLabel(host: string)
    ensures '.' !in host ==> TldLen(host) == 0
    ensures '.' in host ==>
      var n := TldLen(host);
      n < |host| && host[|host| - n - 1] == '.' && '.' !in host[|host| - n..]
    ensures TldLen(host) <= |host|
  {
    if '.' in host {
      SplitLast(host, '.');
    }
  }

  /** `count_subdomains` is the number of dots in the host less one when
      there are at least two, and 0 otherwise. */
  lemma SubdomainCount(parse: Parser, log2: real -> real, url: string)
    ensures var host := SafeUrlParse(parse, url).netloc;
      var dots := Count(host, '.');
      LexicalFeatures(parse, log2, url).countSubdomains == if dots >= 2 then dots - 1 else 0
  {
  }

  /** `first_dir` holds no slash, occurs in the path, and is empty unless a
      slash occurs after the path's first character. */
  lemma FirstDirProperties(path: string)
    ensures '/' !in FirstDir(path)
    ensures Contains(path, FirstDir(path))
    ensures FirstDir(path) != "" ==> '/' in Tail(path)
  {
    SplitPartsSeparatorFree(path, '/');
    if '/' in Tail(path) {
      assert '/' in path by {
        var k :| 0 <= k < |Tail(path)| && Tail(path)[k] == '/';
        assert path[k + 1] == '/';
      }
      SplitFirst(path, '/');
      var parts := Split(path, '/');
      var n := |parts[0]|;
      SplitHead(path[n + 1..], '/');
      assert parts[1] == Split(path[n + 1..], '/')[0];
      assert StartsWith(path[n + 1..], FirstDir(path));
    } else {
      assert StartsWith(path[0..], "");
    }
  }

  /** Whenever a slash occurs after the path's first character, `first_dir`
      is the second `/`-separated part: the text after the first slash, up
      to the next slash or the end. Rooted or not, `a/b` gives `b` and
      `/a/b` gives `a`. */
  lemma FirstDirIsSecondPart(path: string)
    requires '/' in Tail(path)
    ensures var n := |Split(path, '/')[0]|;
      n < |path| && path[n] == '/' && '/' !in path[..n]
      && FirstDir(path) == Split(path[n + 1..], '/')[0]
  {
    assert '/' in path by {
      var k :| 0 <= k < |Tail(path)| && Tail(path)[k] == '/';
      assert path[k + 1] == '/';
    }
    SplitFirst(path, '/');
  }

  /** For a rooted path `/a/b`, `first_dir` is `a`; for `/a`, with no second
      slash, it is empty. */
  lemma FirstDirOfRootedPath(a: string, b: string)
    requires '/' !in a
    ensures FirstDir("/" + a + "/" + b) == a
    ensures FirstDir("/" + a) == ""
  {
    var p := "/" + a + "/" + b;
    assert Tail(p) == a + "/" + b;
    assert Tail(p)[|a|] == '/';
    SplitFirst(p, '/');
    assert p[0] == '/';
    assert Split(p, '/')[0] == [];
    SplitFirst(p[1..], '/');
    assert p[1..][..|a|] == a;
    SplitHead(p[1..], '/');
    assert Split(p, '/')[1] == Split(p[1..], '/')[0];
    assert Tail("/" + a) == a;
  }

  /** `path_len` counts the path, plus the `?` and the query when there is
      a query; `first_dir_len` is at most `path_len`. */
  lemma PathLengths(parse: Parser, log2: real -> real, url: string)
    ensures var parsed := SafeUrlParse(parse, url);
      var f := LexicalFeatures(parse, log2, url);
      f.pathLen == |parsed.path| + (if parsed.query == "" then 0 else |parsed.query| + 1)
      && f.pathLen >= |parsed.path|
      && f.firstDirLen <= f.pathLen
  {
    var path := SafeUrlParse(parse, url).path;
    FirstDirProperties(path);
    var i :| 0 <= i <= |path| && StartsWith(path[i..], FirstDir(path));
  }

  // ---------------------------------------------------------------------
  // Query parameters

  /** `count_query_params` is 0 exactly when the query is empty, and
      otherwise one more than the number of `&` in the query. */
  lemma QueryParamCount(parse: Parser, log2: real -> real, url: string)
    ensures var query := SafeUrlParse(parse, url).query;
      var n := LexicalFeatures(parse, log2, url).countQueryParams;
      (n == 0 <==> query == "") && (query != "" ==> n == Count(query, '&') + 1)
  {
  }

  // ---------------------------------------------------------------------
  // Entropy and the character histogram

  /** `CountSum` of one more leading character. */
  lemma {:induction false} CountSumCons(x: char, t: string, d: seq<char>)
    ensures CountSum([x] + t, d) == CountSum(t, d) + Count(d, x)
  {
    if d != [] {
      assert ([x] + t)[1..] == t;
      CountSumCons(x, t, d[1..]);
    }
  }

  /** A character listed once is counted once. */
  lemma {:induction false} CountDistinct(d: seq<char>, x: char)
    requires x in d
    requires forall i, j :: 0 <= i < j < |d| ==> d[i] != d[j]
    ensures Count(d, x) == 1
  {
    if d[0] != x {
      CountDistinct(d[1..], x);
    } else {
      assert x !in d[1..] by {
        forall k | 0 <= k < |d[1..]| ensures d[1..][k] != x { assert d[k + 1] != d[0]; }
      }
    }
  }

  /** Nothing is counted in the empty string. */
  lemma {:induction false} CountSumEmpty(d: seq<char>)
    ensures CountSum([], d) == 0
  {
    if d != [] {
      CountSumEmpty(d[1..]);
    }
  }

  /** Over any repetition-free list covering the characters of `s`, the
      per-character counts add up to the length of `s`. */
  lemma {:induction false} CountSumCovers(s: string, d: seq<char>)
    requires forall c :: c in s ==> c in d
    requires forall i, j :: 0 <= i < j < |d| ==> d[i] != d[j]
    ensures CountSum(s, d) == |s|
  {
    if s == [] {
      CountSumEmpty(d);
    } else {
      assert s == [s[0]] + s[1..];
      CountSumCons(s[0], s[1..], d);
      CountDistinct(d, s[0]);
      CountSumCovers(s[1..], d);
    }
  }

  /** The character histogram behind the entropy accounts for every
      character of the URL: the counts of the distinct characters add up to
      `url_len`. */
  lemma HistogramTotal(url: string)
    ensures CountSum(url, Distinct(url)) == |url|
  {
    CountSumCovers(url, Distinct(url));
  }

  /** The sum of the probabilities `url.count(c) / url_len` over the
      characters `d`. */
  function ProbabilitySum(s: string, d: seq<char>): (sum: real)
    requires |s| > 0
  {
    if d == [] then 0.0 else Probability(s, d[0]) + ProbabilitySum(s, d[1..])
  }

  /** Two quotients over one positive denominator add as their numerators. */
  lemma AddQuotients(a: real, b: real, n: real)
    requires n > 0.0
    ensures a / n + b / n == (a + b) / n
  {
    var w := 1.0 / n;
    assert a / n == a * w && b / n == b * w && (a + b) / n == (a + b) * w;
    assert a * w + b * w == (a + b) * w;
  }

  /** Summing the probabilities is summing the counts, then dividing by the
      length. */
  lemma {:induction false} ProbabilitySumIsCountSum(s: string, d: seq<char>)
    requires |s| > 0
    ensures ProbabilitySum(s, d) == CountSum(s, d) as real / |s| as real
  {
    if d != [] {
      ProbabilitySumIsCountSum(s, d[1..]);
      AddQuotients(Count(s, d[0]) as real, CountSum(s, d[1..]) as real, |s| as real);
    }
  }

  /** For a non-empty URL the probabilities the entropy is built from, one
      per distinct character, add up to 1. */
  lemma ProbabilitiesSumToOne(url: string)
    requires |url| > 0
    ensures ProbabilitySum(url, Distinct(url)) == 1.0
  {
    ProbabilitySumIsCountSum(url, Distinct(url));
    HistogramTotal(url);
    DivSelf(|url| as real);
  }

  /** Two different characters are counted apart. */
  lemma {:induction false} CountTwo(s: string, a: char, b: char)
    requires a != b
    ensures Count(s, a) + Count(s, b) <= |s|
  {
    if s != [] {
      CountTwo(s[1..], a, b);
    }
  }

  /** A string of one repeated character has that character counted at
      every position. */
  lemma {:induction false} CountRepeated(s: string, c: char)
    requires forall i :: 0 <= i < |s| ==> s[i] == c
    ensures Count(s, c) == |s|
  {
    if s != [] {
      CountRepeated(s[1..], c);
    }
  }

  /** A string of one repeated character has that one distinct character. */
  lemma {:induction false} DistinctOfRepeated(s: string)
    requires |s| > 0
    requires forall i :: 0 <= i < |s| ==> s[i] == s[0]
    ensures Distinct(s) == [s[0]]
  {
    if |s| > 1 {
      assert s[0] == s[1..][0];
      DistinctOfRepeated(s[1..]);
    }
  }

  lemma DivSelf(x: real)
    requires x > 0.0
    ensures x / x == 1.0
  {
  }

  /** A character that fills the whole string has probability 1. */
  lemma CertainProbability(s: string, c: char)
    requires |s| > 0 && Count(s, c) == |s|
    ensures Probability(s, c) == 1.0
  {
    var n := |s| as real;
    assert Probability(s, c) == n / n;
    DivSelf(n);
  }

  /** The entropy of a URL made of one repeated character is 0, given
      log2(1) = 0. */
  lemma EntropyOfRepeatedChar(url: string, log2: real -> real)
    requires log2(1.0) == 0.0
    requires |url| > 0
    requires forall i :: 0 <= i < |url| ==> url[i] == url[0]
    ensures Entropy(url, log2) == 0.0
  {
    DistinctOfRepeated(url);
    CountRepeated(url, url[0]);
    CertainProbability(url, url[0]);
    assert [url[0]][1..] == [];
    assert EntropySum(url, [url[0]], log2) == 1.0 * log2(1.0) + EntropySum(url, [], log2);
  }

  /** Summing terms p log2(p) with every p strictly between 0 and 1 gives a
      negative total. */
  lemma {:induction false} EntropySumNegative(s: string, d: seq<char>, log2: real -> real)
    requires |s| > 0 && d != []
    requires forall p :: 0.0 < p < 1.0 ==> log2(p) < 0.0
    requires forall c :: c in d ==> 0 < Count(s, c) < |s|
    ensures EntropySum(s, d, log2) < 0.0
  {
    var p := Probability(s, d[0]);
    assert 0.0 < p < 1.0;
    var l := log2(p);
    assert p * l < 0.0;
    if |d| > 1 {
      EntropySumNegative(s, d[1..], log2);
    }
  }

  /** A URL with two different characters has positive entropy, given a
      logarithm that is negative on (0, 1). */
  lemma EntropyPositive(url: string, log2: real -> real, i: nat, j: nat)
    requires forall p :: 0.0 < p < 1.0 ==> log2(p) < 0.0
    requires i < |url| && j < |url| && url[i] != url[j]
    ensures Entropy(url, log2) > 0.0
  {
    var d := Distinct(url);
    forall c | c in d ensures 0 < Count(url, c) < |url| {
      var other := if c == url[i] then url[j] else url[i];
      CountTwo(url, c, other);
    }
    EntropySumNegative(url, d, log2);
  }

  // ---------------------------------------------------------------------
  // The returned dictionary

  /** The dictionary has exactly the 22 keys of `FeatureNames`, in that
      order, and the scoring row holds their values in the same order. */
  lemma KeyOrder(f: Features)
    ensures |Items(f)| == |FeatureNames| == |Vector(f)| == 22
    ensures forall i :: 0 <= i < 22 ==> Items(f)[i].0 == FeatureNames[i] && Vector(f)[i] == Items(f)[i].1
  {
  }

  /** No key is repeated, so the dictionary literal keeps all 22 entries. */
  lemma FeatureNamesDistinct()
    ensures forall i, j :: 0 <= i < j < |FeatureNames| ==> FeatureNames[i] != FeatureNames[j]
  {
  }

  /** The empty URL, which `urlparse` parses into all-empty fields, gives 0
      for every feature. */
  lemma EmptyUrlAllZero(parse: Parser, log2: real -> real)
    requires parse("") == Some(EmptyParse)
    ensures var v := Vector(LexicalFeatures(parse, log2, ""));
      forall i :: 0 <= i < |v| ==> v[i] == 0.0
  {
    assert SafeUrlParse(parse, "") == EmptyParse;
    EmptyHostFeatures();
    assert !ContainsSuspiciousWord("") by {
      assert Lower("") == "";
    }
    assert FirstDir("") == "";
    assert LexicalFeatures(parse, log2, "")
      == Features(0, 0, 0, 0, 0, 0, 0, 0, 0, 0, 0, 0, 0.0, 0.0, 0, 0, 0, 0, 0, 0, 0, 0.0);
  }

  /** An empty host gives 0 for every host feature. */
  lemma EmptyHostFeatures()
    ensures TldLen("") == 0 && |SubdomainLabels("")| == 0
    ensures !Contains(Lower(""), "https") && !IsIpv4Host("")
    ensures !HasPrefixSuffix("") && !HasSuspiciousTld("")
  {
    assert Lower("") == "";
  }

  /** When both parses fail, the URL is folded into the path: every host and
      query feature is 0 and `path_len` is the length of the stripped URL. */
  lemma FallbackFeatures(parse: Parser, log2: real -> real, url: string)
    requires parse(url).None? && parse(StripBrackets(url)).None?
    ensures var f := LexicalFeatures(parse, log2, url);
      f.hostLen == 0 && f.tldLen == 0 && f.countSubdomains == 0 && f.countQueryParams == 0
      && f.hasHttpsScheme == 0 && f.hasHttpsToken == 0 && f.hasIpHost == 0
      && f.hasPrefixSuffix == 0 && f.hasSuspiciousTld == 0
      && f.pathLen == |StripBrackets(url)| <= f.urlLen
  {
    EmptyHostFeatures();
  }
}
