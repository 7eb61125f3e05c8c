# PhishNet lexical URL features, in Dafny

PhishNet classifies URLs as phishing or legitimate. It does not look up
anything on the network. Its classifier sees a row of 22 numbers computed
from the URL's text by `lexical_features` in `utils/feature_utils.py`.
This project models that file and proves what its features mean.

The model has three parts:

- **The defensive parser `safe_urlparse`.** It tries `urllib.parse.urlparse`
  on the raw string. If that raises, it removes every `[...]` span and tries
  again. If that raises too, it returns an empty parse whose path is the
  cleaned string.
- **The three constant tables.** These are the suspicious words, the special
  characters and the suspicious top-level suffixes.
- **The extractor `lexical_features`.** It computes lengths, character
  counts, two ratios, seven 0/1 flags and the Shannon entropy. It returns
  them as a dictionary whose key order the scoring service relies on.

The source is pure: expressions, `split`/`count` calls and generator sums. So
the model is functions and lemmas, with no state and no loops.

Files:

- `text.dfy` (module `Text`): the Python string operations the extractor
  uses, over ASCII. These are `count`, `in`, `endswith`, `split` on one
  character, `lower`, `isdigit`, `isalpha` and `s[1:]`. Two helpers the
  extractor does not call are defined beside them: `StartsWith`, on which
  `Contains` and `EndsWith` are built, and `Join`, the inverse that the
  `split` round trip is stated against.
- `safe_urlparse.dfy` (module `UrlParse`): the parse record, the
  `re.sub(r"\[.*?\]", "", s)` strip and the three-tier fallback.
- `feature_utils.py` is modelled by `feature_utils.dfy` (module
  `FeatureUtils`): the constants, the IPv4 pattern, the entropy, the
  `Features` record, `LexicalFeatures`, and the dictionary as ordered
  (key, value) pairs.
- `feature_lemmas.dfy` (module `FeatureLemmas`): the properties of each
  feature.
- `scenarios.dfy` (module `Scenarios`): two example URLs worked through, and
  the `count_query_params` examples.

`urlparse` is a parameter `parse: string -> Option<ParseResult>`, where
`None` stands for the `ValueError` it raises. The base-2 logarithm used by
the entropy is a parameter `log2: real -> real`. Ratios and entropy are
exact reals.

## Model

| member | source | states |
|---|---|---|
| Text.Count | utils/feature_utils.py:62-64 | `s.count(c)` is at most `len(s)`, and is 0 exactly when `c` does not occur |
| Text.CountIf | utils/feature_utils.py:65 | a generator sum of a character test is at most `len(s)`, and is 0 exactly when no character passes |
| Text.LowerChar | utils/feature_utils.py:76 | lower-casing leaves no upper-case letter, keeps letters letters, maps a letter to itself or to the letter 32 code points above, and leaves every other character alone |
| Text.SplitJoin | utils/feature_utils.py:50 | joining the parts of `s.split(sep)` with `sep` gives back `s` |
| Text.SplitCount | utils/feature_utils.py:50 | `s.split(sep)` has one more part than `s` has separators |
| Text.SplitPartsSeparatorFree | utils/feature_utils.py:50 | no part of a split holds the separator |
| Text.SplitWithoutSeparator | utils/feature_utils.py:58 | a string without the separator splits into itself alone |
| Text.SplitFirst | utils/feature_utils.py:52 | the first part is the text before the first separator, and the remaining parts are the split of what follows it |
| Text.SplitLast | utils/feature_utils.py:58 | the last part is the text after the last separator |
| Text.LastPartOfSuffix | utils/feature_utils.py:58 | a string ending in a separator and a separator-free `t` has `t` as its last part |
| Text.CountAppend | utils/feature_utils.py:62 | `count` adds up over concatenation |
| Text.ContainsExtend | utils/feature_utils.py:83 | a substring stays a substring when text is added on either side |
| Text.ContainsLowerWord | utils/feature_utils.py:83 | a word without capitals found in a string is found in its lower-case form |
| Text.LowerIdempotent | utils/feature_utils.py:83 | lower-casing twice is lower-casing once |
| UrlParse.CloseAt | utils/feature_utils.py:22 | `\[.*?\]` closes at the first `]` after the `[`, and only when no newline comes before it |
| UrlParse.StripBrackets | utils/feature_utils.py:22 | removing the bracket spans never makes the string longer |
| UrlParse.SafeUrlParse | utils/feature_utils.py:12-27 | when both the raw and the stripped parse fail, scheme, netloc, params, query and fragment are empty, and the path is the stripped URL, free of bracket spans and no longer than the URL |
| UrlParse.StripWithoutBracket | utils/feature_utils.py:22 | a string without `[` is left unchanged by the strip |
| UrlParse.StripWithoutSpan | utils/feature_utils.py:22 | a string in which the pattern matches nowhere is left unchanged |
| UrlParse.StripLeavesNoSpan | utils/feature_utils.py:22 | after the strip the pattern matches nowhere |
| UrlParse.StripIdempotent | utils/feature_utils.py:22 | stripping twice is stripping once |
| UrlParse.SafeUrlParseWithoutBracket | utils/feature_utils.py:19-27 | a bracket-free URL that fails to parse becomes the path, whole |
| FeatureUtils.SubdomainLabels | utils/feature_utils.py:50 | the subdomain list has one label fewer than the host has dots when there are at least two dots, is empty otherwise, and holds no dot |
| FeatureUtils.Distinct | utils/feature_utils.py:88 | `set(url)` lists every character of the URL once and nothing else |
| FeatureLemmas.CharClassesDisjoint | utils/feature_utils.py:62-72 | dots, hyphens, underscores, digits, letters and special characters are counted apart, so their counts add up to at most `url_len` |
| FeatureLemmas.CountsBounded | utils/feature_utils.py:55-68 | every character count is at most `url_len`, and digits plus letters are too |
| FeatureLemmas.RatiosBounded | utils/feature_utils.py:71-72 | `digits_ratio` and `letters_ratio` lie in [0, 1], sum to at most 1, and are 0 for the empty URL |
| FeatureLemmas.FlagsAreBits | utils/feature_utils.py:75-83 | every `has_*` and `contains_*` feature is 0 or 1 |
| FeatureLemmas.PrefixSuffixMeaning | utils/feature_utils.py:78 | `has_prefix_suffix` is 1 exactly when a hyphen occurs before the host's first dot, and then the host contains a hyphen |
| FeatureLemmas.SuspiciousTldMeaning | utils/feature_utils.py:80-82 | `has_suspicious_tld` is 1 exactly when the host has a dot and its last label, dot in front, is one of the seven suffixes |
| FeatureLemmas.SuspiciousTldIsLastLabel | utils/feature_utils.py:80-82 | a host ending in a listed suffix has a dot, and that suffix's label is its last label |
| FeatureLemmas.LastLabelIsSuspiciousTld | utils/feature_utils.py:80-82 | a host whose last label, dot in front, is listed ends in that suffix |
| FeatureLemmas.SuspiciousWordMonotone | utils/feature_utils.py:83 | text added around a URL never clears `contains_suspicious_word`, and the flag ignores letter case |
| FeatureLemmas.DoubleSlashNeedsTwoSlashes | utils/feature_utils.py:79 | `has_double_slash_in_path` is 1 only when the path holds at least two slashes |
| FeatureLemmas.DigitGroupsHaveLabels | utils/feature_utils.py:77 | a string the pattern `\d{1,3}(\.\d{1,3}){k-1}` matches whole splits on dots into `k` labels of 1 to 3 digits |
| FeatureLemmas.LabelsMatchDigitGroups | utils/feature_utils.py:77 | a string whose dot-split is `k` labels of 1 to 3 digits is matched by that pattern |
| FeatureLemmas.DigitGroupsLength | utils/feature_utils.py:77 | `k` digit groups take between `2k - 1` and `4k - 1` characters |
| FeatureLemmas.IpHostShape | utils/feature_utils.py:77 | `has_ip_host` is 1 exactly when the host is four dot-separated labels of 1 to 3 digits; such a host has three dots and 7 to 15 characters |
| FeatureLemmas.TldIsLastLabel | utils/feature_utils.py:58 | `tld_len` is 0 for a dot-free host, and otherwise the length of the text after the last dot; it never exceeds `host_len` |
| FeatureLemmas.SubdomainCount | utils/feature_utils.py:50 | `count_subdomains` is the host's dot count less one when there are at least two dots, and 0 otherwise |
| FeatureLemmas.FirstDirProperties | utils/feature_utils.py:52 | `first_dir` holds no slash, occurs in the path, and is empty unless a slash occurs after the path's first character |
| FeatureLemmas.FirstDirIsSecondPart | utils/feature_utils.py:52 | whenever a slash occurs after the path's first character, `first_dir` is the text after the path's first slash up to the next slash or the end |
| FeatureLemmas.FirstDirOfRootedPath | utils/feature_utils.py:52 | `/a/b` has first directory `a`; `/a` has none |
| FeatureLemmas.PathLengths | utils/feature_utils.py:47-59 | `path_len` is the path's length, plus one and the query's length when there is a query; `first_dir_len` is at most `path_len` |
| FeatureLemmas.QueryParamCount | utils/feature_utils.py:67 | `count_query_params` is 0 exactly when the query is empty, and otherwise the number of `&` plus one |
| FeatureLemmas.HistogramTotal | utils/feature_utils.py:88 | the counts of the distinct characters add up to `url_len` |
| FeatureLemmas.ProbabilitySumIsCountSum | utils/feature_utils.py:87 | the sum of the probabilities `count / url_len` over any characters is the sum of their counts divided by `url_len` |
| FeatureLemmas.ProbabilitiesSumToOne | utils/feature_utils.py:86-87 | for a non-empty URL the probabilities, one per distinct character, add up to 1 |
| FeatureLemmas.CountSumCovers | utils/feature_utils.py:88 | over any repetition-free list covering a string's characters, the per-character counts add up to its length |
| FeatureLemmas.EntropyOfRepeatedChar | utils/feature_utils.py:86-89 | a URL of one repeated character has entropy 0 |
| FeatureLemmas.EntropyPositive | utils/feature_utils.py:86-89 | a URL with two different characters has positive entropy |
| FeatureLemmas.EntropySumNegative | utils/feature_utils.py:89 | a sum of terms `p * log2(p)` with every `p` in (0, 1) is negative |
| FeatureLemmas.KeyOrder | utils/feature_utils.py:91-114 | the dictionary has the 22 keys in their fixed order, and the scoring row holds their values in that order |
| FeatureLemmas.FeatureNamesDistinct | utils/feature_utils.py:91-114 | no key is repeated, so none of the 22 entries is lost |
| FeatureLemmas.EmptyUrlAllZero | utils/feature_utils.py:37-114 | the empty URL gives 0 for every feature |
| FeatureLemmas.FallbackFeatures | utils/feature_utils.py:25-27 | when both parses fail, every host and query feature is 0 and `path_len` is the length of the stripped URL |
| Scenarios.PaypalHostFeatures | utils/feature_utils.py:50-78 | host `secure-login.paypal.com`: no `https` in it, a hyphen in the first label, one subdomain label, a three-letter last label, not an IPv4 host |
| Scenarios.PaypalUrl | utils/feature_utils.py:37-114 | the parse of `https://secure-login.paypal.com/account/update?x=1` gives an https scheme, `has_https_token` 0, `has_prefix_suffix` 1, one query parameter and first directory `account`, and `contains_suspicious_word` 1 |
| Scenarios.PaypalWord | utils/feature_utils.py:83 | any URL with host `secure-login.paypal.com` holds the suspicious word `secure` |
| Scenarios.DottedQuad | utils/feature_utils.py:77 | `192.168.0.1` matches the IPv4 pattern |
| Scenarios.IpUrl | utils/feature_utils.py:37-114 | the parse of `http://192.168.0.1/login` gives `has_ip_host` 1, no https scheme, no query, no first directory and `contains_suspicious_word` 1 |
| Scenarios.IpWord | utils/feature_utils.py:83 | any URL with path `/login` holds the suspicious word `login` |
| Scenarios.QueryParamExamples | utils/feature_utils.py:67 | `count_query_params` is 2 for a URL whose query parses as `a=1&b=2`, 1 for `a=1` and 0 for none |

## Behaviour worth noting

- The dictionary at utils/feature_utils.py:91-114 has 22 keys, with
  `entropy` last. `FeatureLemmas.KeyOrder` and
  `FeatureLemmas.FeatureNamesDistinct` state the 22.
- `has_https_token` tests the host only (utils/feature_utils.py:76), not the
  scheme. So `https://secure-login.paypal.com/account/update?x=1` gives 0
  even though its scheme is https: the host holds no `h` at all.
  `Scenarios.PaypalUrl` proves the 0.
- `has_prefix_suffix` looks for a hyphen in `host.split(".")[0]`, which is
  the whole host when there is no dot (utils/feature_utils.py:78). So a
  dot-free host such as `my-host` gives 1.
  `FeatureLemmas.PrefixSuffixMeaning` states this.

## Left out

- The internals of `urllib.parse.urlparse` are not part of this model. It is
  a parameter that may fail.
- `urlparse("")` is taken to return all-empty fields (`UrlParse.EmptyParse`),
  which is what the library does. `FeatureLemmas.EmptyUrlAllZero` states
  this as its precondition.
- Entropy is computed over exact reals with the logarithm as a parameter.
  Floating-point rounding of `np.log2`, of the divisions and of the sum is
  left out, and so is the order in which `set(url)` is iterated. Over exact
  reals that order does not change the sum.
- `digits_ratio` and `letters_ratio` (utils/feature_utils.py:71-72) are
  exact reals in the model. Python's float division and its rounding are
  left out.
- `FeatureLemmas.EntropyOfRepeatedChar` assumes `log2(1) == 0`, and
  `FeatureLemmas.EntropyPositive` assumes `log2` is negative on (0, 1). The
  logarithm is a parameter, so these two facts are preconditions.
- `isdigit`, `isalpha`, `lower()` and the regular expression's `\d` are
  modelled over ASCII only. Python's Unicode digits, letters and case
  mappings are not modelled.
- In `^\d{1,3}(\.\d{1,3}){3}$`, the `$` also matches before a final newline.
  This is not modelled, so a host `1.2.3.4\n` is taken as no match.
- `str(url)` at utils/feature_utils.py:42 is left out. The model takes a
  string already.
- The `sys.path` set-up at utils/feature_utils.py:1-3 is left out. It does
  not affect any value.
- `api/app.py` is left out: Flask routing, the API-key check, JSON,
  `joblib` loading and the scaler and classifier. Only the way it turns the
  dictionary into a row, `list(feats.values())` at line 59, is modelled
  (`FeatureUtils.Vector`).
- Determinism holds by construction, since every member is a function.
- `Scenarios.PaypalUrl` and `Scenarios.IpUrl` take the parse of each example
  URL as a precondition, because the parser is a parameter.
