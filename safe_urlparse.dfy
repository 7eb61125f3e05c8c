/** `safe_urlparse`: a URL parse that never fails, built on a parser that can. */
module UrlParse {
  import opened Text

  datatype Option<T> = None | Some(value: T)

  /** The six fields of urllib's `ParseResult`. */
  datatype ParseResult = ParseResult(
    scheme: string, netloc: string, path: string,
    params: string, query: string, fragment: string)

  /** `urllib.parse.urlparse`, whose internals are not part of this model:
      `None` stands for the `ValueError` it raises on some inputs (an invalid
      bracketed IPv6 host, for one). */
  type Parser = string -> Option<ParseResult>

  /** What `urlparse("")` returns: every field empty. */
  const EmptyParse := ParseResult("", "", "", "", "", "")

  /** Where `\[.*?\]` can close once its `[` has been read, `t` being the text
      after the `[`: the first `]`, provided no newline comes before it (`.`
      does not match a newline); `None` when there is no such `]`. */
  function CloseAt(t: string): (r: Option<nat>)
    ensures r.Some? ==> r.value < |t| && t[r.value] == ']'
    ensures r.Some? ==> forall k :: 0 <= k < r.value ==> t[k] != ']' && t[k] != '\n'
    ensures r.None? ==> forall k :: 0 <= k < |t| && t[k] == ']' ==> '\n' in t[..k]
  {
    if t == [] then None
    else if t[0] == ']' then Some(0)
    else if t[0] == '\n' then None
    else
      match CloseAt(t[1..])
      case Some(j) => Some(j + 1)
      case None =>
        assert forall k :: 1 <= k < |t| && t[k] == ']' ==> '\n' in t[..k] by {
          forall k | 1 <= k < |t| && t[k] == ']' ensures '\n' in t[..k] {
            assert t[1..][k - 1] == ']';
            assert t[1..][..k - 1] == t[1..k];
          }
        }
        None
  }

  /** `re.sub(r"\[.*?\]", "", s)`: scanning left to right, every `[` that
      has a closing `]` later on the same line is removed together with that
      `]` and everything between; a `[` without one is kept. */
  function StripBrackets(s: string): (r: string)
    ensures |r| <= |s|
    decreases |s|
  {
    if s == [] then []
    else if s[0] == '[' then
      match CloseAt(s[1..])
      case Some(j) => StripBrackets(s[j + 2..])
      case None => [s[0]] + StripBrackets(s[1..])
    else [s[0]] + StripBrackets(s[1..])
  }

  /** `re.search(r"\[.*?\]", s) is None`: no `[` of `s` can be closed. */
  predicate NoBracketSpan(s: string)
  {
    forall i :: 0 <= i < |s| && s[i] == '[' ==> CloseAt(s[i + 1..]).None?
  }

  /** `safe_urlparse(url)`: the raw parse if it succeeds; otherwise the parse
      of the bracket-stripped string if that succeeds; otherwise an empty
      parse whose path is the stripped string. In that last tier every
      field but the path is empty, and the path is the URL with no bracket
      span left in it and no longer than the URL. */
  function SafeUrlParse(parse: Parser, url: string): (r: ParseResult)
    ensures parse(url).None? && parse(StripBrackets(url)).None? ==>
      r.scheme == "" && r.netloc == "" && r.params == "" && r.query == "" && r.fragment == ""
      && r.path == StripBrackets(url) && NoBracketSpan(r.path) && |r.path| <= |url|
  {
    StripLeavesNoSpan(url);
    match parse(url)
    case Some(p) => p
    case None =>
      var cleaned := StripBrackets(url);
      match parse(cleaned)
      case Some(p) => p
      case None => EmptyParse.(path := cleaned)
  }

  // ---------------------------------------------------------------------
  // Lemmas

  /** Without a `[` there is nothing to strip. */
  lemma {:induction false} StripWithoutBracket(s: string)
    requires '[' !in s
    ensures StripBrackets(s) == s
  {
    if s != [] {
      assert '[' !in s[1..];
      StripWithoutBracket(s[1..]);
    }
  }

  /** A string in which the pattern matches nowhere is left unchanged. */
  lemma {:induction false} StripWithoutSpan(s: string)
    requires NoBracketSpan(s)
    ensures StripBrackets(s) == s
  {
    if s != [] {
      assert NoBracketSpan(s[1..]) by {
        forall i | 0 <= i < |s[1..]| && s[1..][i] == '['
          ensures CloseAt(s[1..][i + 1..]).None?
        {
          assert s[1..][i + 1..] == s[i + 2..];
        }
      }
      StripWithoutSpan(s[1..]);
    }
  }

  /** `CloseAt` on a string with one more character in front. */
  lemma CloseAtCons(c: char, t: string)
    requires c != ']' && c != '\n'
    ensures CloseAt([c] + t).None? <==> CloseAt(t).None?
  {
    assert ([c] + t)[1..] == t;
  }

  /** If a `[` cannot close in `t`, it cannot close in the stripped `t`
      either: stripping never brings a `]` in front of a newline. */
  lemma {:induction false} StripKeepsUnclosed(t: string)
    requires CloseAt(t).None?
    ensures CloseAt(StripBrackets(t)).None?
  {
    if t != [] && t[0] != '\n' {
      assert t[0] != ']';
      assert CloseAt(t[1..]).None?;
      if t[0] == '[' {
        assert StripBrackets(t) == [t[0]] + StripBrackets(t[1..]);
      }
      StripKeepsUnclosed(t[1..]);
      CloseAtCons(t[0], StripBrackets(t[1..]));
    }
  }

  /** Every match has been removed from the result of a strip. */
  lemma {:induction false} StripLeavesNoSpan(s: string)
    ensures NoBracketSpan(StripBrackets(s))
    decreases |s|
  {
    if s != [] {
      if s[0] == '[' && CloseAt(s[1..]).Some? {
        StripLeavesNoSpan(s[CloseAt(s[1..]).value + 2..]);
      } else {
        var rest := StripBrackets(s[1..]);
        var r := [s[0]] + rest;
        assert StripBrackets(s) == r;
        StripLeavesNoSpan(s[1..]);
        if s[0] == '[' {
          StripKeepsUnclosed(s[1..]);
          assert r[1..] == rest;
        }
        forall i | 1 <= i < |r| && r[i] == '['
          ensures CloseAt(r[i + 1..]).None?
        {
          assert rest[i - 1] == '[';
          assert r[i + 1..] == rest[i..];
        }
      }
    }
  }

  /** Stripping is idempotent: a second strip changes nothing. */
  lemma StripIdempotent(s: string)
    ensures StripBrackets(StripBrackets(s)) == StripBrackets(s)
  {
    StripLeavesNoSpan(s);
    StripWithoutSpan(StripBrackets(s));
  }

  /** A URL without `[` that the parser rejects is retried unchanged, so it
      falls through to the last tier and becomes the path, whole. */
  lemma SafeUrlParseWithoutBracket(parse: Parser, url: string)
    requires '[' !in url && parse(url).None?
    ensures SafeUrlParse(parse, url) == EmptyParse.(path := url)
  {
    StripWithoutBracket(url);
  }
}
