/** `lexical_features`: the map of 22 numeric features the phishing
    classifier is trained on, computed from a URL string and its parse. */
module FeatureUtils {
  import opened Text
  import opened UrlParse

  /** `SUSPICIOUS_WORDS`, looked for in the lower-cased URL. */
  const SuspiciousWords: set<string> :=
    {"secure", "login", "signin", "verify", "update",
     "account", "bank", "paypal", "password", "confirm"}

  /** `SPECIAL_CHARS`: the 24 punctuation characters counted by
      `count_special_chars`. */
  const SpecialChars: set<char> :=
    {'~', '!', '#', '$', '%', '^', '&', '*', '+', '=', '{', '}', '[', ']',
     '|', '\\', ';', ':', '\'', '"', ',', '<', '>', '?'}

  /** The suffixes `has_suspicious_tld` tests the host against. */
  const SuspiciousTlds: seq<string> :=
    [".xyz", ".top", ".club", ".info", ".live", ".fit", ".buzz"]

  /** The keys of the returned dictionary, in insertion order: the order in
      which the scoring service lays the values out for the model. */
  const FeatureNames: seq<string> :=
    ["url_len", "host_len", "path_len", "tld_len", "first_dir_len",
     "count_dots", "count_hyphens", "count_underscores", "count_digits",
     "count_subdomains", "count_query_params", "count_special_chars",
     "digits_ratio", "letters_ratio",
     "has_https_scheme", "has_https_token", "has_ip_host", "has_prefix_suffix",
     "has_double_slash_in_path", "has_suspicious_tld", "contains_suspicious_word",
     "entropy"]

  /** The dictionary `lexical_features` returns, one field per key. The
      ratios and the entropy are exact reals. */
  datatype Features = Features(
    urlLen: nat, hostLen: nat, pathLen: nat, tldLen: nat, firstDirLen: nat,
    countDots: nat, countHyphens: nat, countUnderscores: nat, countDigits: nat,
    countSubdomains: nat, countQueryParams: nat, countSpecialChars: nat,
    digitsRatio: real, lettersRatio: real,
    hasHttpsScheme: nat, hasHttpsToken: nat, hasIpHost: nat, hasPrefixSuffix: nat,
    hasDoubleSlashInPath: nat, hasSuspiciousTld: nat, containsSuspiciousWord: nat,
    entropy: real)

  /** `int(b)` for a boolean. */
  function Flag(b: bool): (n: nat)
  {
    if b then 1 else 0
  }

  predicate IsSpecialChar(c: char) { c in SpecialChars }

  /** `n / d if d else 0`. */
  function Ratio(n: nat, d: nat): (r: real)
  {
    if d == 0 then 0.0 else n as real / d as real
  }

  /** `path_q`: the path, followed by `?` and the query when there is one. */
  function PathWithQuery(path: string, query: string): (pq: string)
  {
    path + (if query != "" then "?" + query else "")
  }

  /** `subdomains`: all labels of the host but the last two, when the host
      has at least two dots; otherwise none. */
  function SubdomainLabels(host: string): (labels: seq<string>)
    ensures |labels| == if Count(host, '.') >= 2 then Count(host, '.') - 1 else 0
    ensures forall i :: 0 <= i < |labels| ==> '.' !in labels[i]
  {
    if Count(host, '.') >= 2 then
      var parts := Split(host, '.');
      SplitPartsSeparatorFree(host, '.');
      SplitCount(host, '.');
      parts[..|parts| - 2]
    else []
  }

  /** `first_dir`: the second `/`-separated part of the path, taken only
      when a `/` occurs after the path's first character. */
  function FirstDir(path: string): (dir: string)
  {
    if '/' in Tail(path) then
      assert '/' in path by {
        var k :| 0 <= k < |Tail(path)| && Tail(path)[k] == '/';
        assert path[k + 1] == '/';
      }
      SplitCount(path, '/');
      Split(path, '/')[1]
    else ""
  }

  /** `host.split(".")[-1]`: the label after the last dot. */
  function LastLabel(host: string): (last: string)
  {
    var parts := Split(host, '.');
    parts[|parts| - 1]
  }

  /** `tld_len`. */
  function TldLen(host: string): (n: nat)
  {
    if '.' in host then |LastLabel(host)| else 0
  }

  /** Every character of `s` is a digit. */
  predicate AllDigits(s: string)
  {
    forall i :: 0 <= i < |s| ==> IsDigit(s[i])
  }

  /** The regular expression `\d{1,3}(\.\d{1,3}){k-1}` matched against the
      whole of `h`: a first group of one, two or three digits, tried in
      turn. */
  predicate DigitGroups(h: string, k: nat)
    decreases k, 1
  {
    k >= 1 && (GroupThen(h, 1, k) || GroupThen(h, 2, k) || GroupThen(h, 3, k))
  }

  /** The first `n` characters of `h` are digits and, unless that was the
      last of the `k` groups, a dot and the remaining groups follow. */
  predicate GroupThen(h: string, n: nat, k: nat)
    decreases k, 0
  {
    n <= |h| && AllDigits(h[..n]) &&
    if k <= 1 then n == |h|
    else n < |h| && h[n] == '.' && DigitGroups(h[n + 1..], k - 1)
  }

  /** `re.match(r"^\d{1,3}(\.\d{1,3}){3}$", host)`. */
  predicate IsIpv4Host(host: string)
  {
    DigitGroups(host, 4)
  }

  /** `"-" in host.split(".")[0]`, guarded by `if host`. */
  predicate HasPrefixSuffix(host: string)
  {
    host != "" && '-' in Split(host, '.')[0]
  }

  /** `host.endswith((".xyz", ".top", ...))`. */
  predicate HasSuspiciousTld(host: string)
  {
    exists i :: 0 <= i < |SuspiciousTlds| && EndsWith(host, SuspiciousTlds[i])
  }

  /** `any(w in url.lower() for w in SUSPICIOUS_WORDS)`. */
  predicate ContainsSuspiciousWord(url: string)
  {
    exists w :: w in SuspiciousWords && Contains(Lower(url), w)
  }

  // ---------------------------------------------------------------------
  // Entropy

  /** `set(url)`, listed once each: every character of `s`, and nothing
      else, without repetition (in the order of last occurrence). */
  function Distinct(s: string): (d: seq<char>)
    ensures forall c :: c in d <==> c in s
    ensures forall i, j :: 0 <= i < j < |d| ==> d[i] != d[j]
  {
    if s == [] then []
    else if s[0] in s[1..] then Distinct(s[1..])
    else [s[0]] + Distinct(s[1..])
  }

  /** `url.count(c) / url_len`. */
  function Probability(s: string, c: char): (p: real)
    requires |s| > 0
  {
    Count(s, c) as real / |s| as real
  }

  /** `sum(p * log2(p) for p in probs if p > 0)` over the characters `d`. */
  function EntropySum(s: string, d: seq<char>, log2: real -> real): (sum: real)
    requires |s| > 0
  {
    if d == [] then 0.0
    else
      var p := Probability(s, d[0]);
      (if p > 0.0 then p * log2(p) else 0.0) + EntropySum(s, d[1..], log2)
  }

  /** The Shannon entropy of the characters of `s`, with the base-2
      logarithm supplied by the caller; 0 for the empty string. */
  function Entropy(s: string, log2: real -> real): (h: real)
  {
    if |s| == 0 then 0.0 else -EntropySum(s, Distinct(s), log2)
  }

  /** The sum of `s.count(c)` over the characters `d`. */
  function CountSum(s: string, d: seq<char>): (total: nat)
  {
    if d == [] then 0 else Count(s, d[0]) + CountSum(s, d[1..])
  }

  // ---------------------------------------------------------------------
  // The extractor

  /** `lexical_features(url)`, with `urlparse` and `log2` supplied by the
      caller. */
  function LexicalFeatures(parse: Parser, log2: real -> real, url: string): (f: Features)
  {
    var parsed := SafeUrlParse(parse, url);
    var host := parsed.netloc;
    var path := parsed.path;
    var query := parsed.query;
    Features(
      urlLen := |url|,
      hostLen := |host|,
      pathLen := |PathWithQuery(path, query)|,
      tldLen := TldLen(host),
      firstDirLen := |FirstDir(path)|,
      countDots := Count(url, '.'),
      countHyphens := Count(url, '-'),
      countUnderscores := Count(url, '_'),
      countDigits := CountIf(url, IsDigit),
      countSubdomains := |SubdomainLabels(host)|,
      countQueryParams := Count(query, '&') + Flag(query != ""),
      countSpecialChars := CountIf(url, IsSpecialChar),
      digitsRatio := Ratio(CountIf(url, IsDigit), |url|),
      lettersRatio := Ratio(CountIf(url, IsAlpha), |url|),
      hasHttpsScheme := Flag(parsed.scheme == "https"),
      hasHttpsToken := Flag(Contains(Lower(host), "https")),
      hasIpHost := Flag(IsIpv4Host(host)),
      hasPrefixSuffix := Flag(HasPrefixSuffix(host)),
      hasDoubleSlashInPath := Flag(Contains(Tail(path), "//")),
      hasSuspiciousTld := Flag(HasSuspiciousTld(host)),
      containsSuspiciousWord := Flag(ContainsSuspiciousWord(url)),
      entropy := Entropy(url, log2))
  }

  /** The returned dictionary as its (key, value) pairs in insertion order,
      each value as the float the scoring service makes of it. */
  function Items(f: Features): (items: seq<(string, real)>)
  {
    [("url_len", f.urlLen as real),
     ("host_len", f.hostLen as real),
     ("path_len", f.pathLen as real),
     ("tld_len", f.tldLen as real),
     ("first_dir_len", f.firstDirLen as real),
     ("count_dots", f.countDots as real),
     ("count_hyphens", f.countHyphens as real),
     ("count_underscores", f.countUnderscores as real),
     ("count_digits", f.countDigits as real),
     ("count_subdomains", f.countSubdomains as real),
     ("count_query_params", f.countQueryParams as real),
     ("count_special_chars", f.countSpecialChars as real),
     ("digits_ratio", f.digitsRatio),
     ("letters_ratio", f.lettersRatio),
     ("has_https_scheme", f.hasHttpsScheme as real),
     ("has_https_token", f.hasHttpsToken as real),
     ("has_ip_host", f.hasIpHost as real),
     ("has_prefix_suffix", f.hasPrefixSuffix as real),
     ("has_double_slash_in_path", f.hasDoubleSlashInPath as real),
     ("has_suspicious_tld", f.hasSuspiciousTld as real),
     ("contains_suspicious_word", f.containsSuspiciousWord as real),
     ("entropy", f.entropy)]
  }

  /** `list(feats.values())`: the row the scoring service feeds the model. */
  function Vector(f: Features): (row: seq<real>)
  {
    var items := Items(f);
    seq(|items|, i requires 0 <= i < |items| => items[i].1)
  }
}
