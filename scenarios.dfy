/** Two URLs worked through end to end, each with the parse `urlparse` gives
    for it taken as a precondition. */
module Scenarios {
  import opened Text
  import opened UrlParse
  import opened FeatureUtils
  import opened FeatureLemmas

  /** A needle occurs only where its first character does. */
  lemma ContainsHead(s: string, t: string)
    requires t != [] && Contains(s, t)
    ensures t[0] in s
  {
    var i :| 0 <= i <= |s| && StartsWith(s[i..], t);
    assert s[i] == t[0];
  }

  /** The host features of `secure-login.paypal.com`: no `https` in it (it
      holds no `h` at all), a hyphen in the first label, one subdomain
      label, a three-letter top-level label, and letters that rule out the
      IPv4 pattern. */
  lemma PaypalHostFeatures(host: string)
    requires host == "secure-login.paypal.com"
    ensures !Contains(Lower(host), "https")
    ensures HasPrefixSuffix(host)
    ensures |SubdomainLabels(host)| == 1
    ensures TldLen(host) == 3
    ensures !IsIpv4Host(host)
  {
    assert 'h' !in Lower(host) by {
      forall k | 0 <= k < |host| ensures Lower(host)[k] != 'h' {
        assert Lower(host)[k] == LowerChar(host[k]);
      }
    }
    if Contains(Lower(host), "https") {
      ContainsHead(Lower(host), "https");
    }
    PaypalLabels(host);
    IpHostShape(host);
  }

  /** A string with exactly one separator, at `k`, splits into the two
      parts around it. */
  lemma TwoParts(s: string, sep: char, k: nat)
    requires k < |s| && s[k] == sep && sep !in s[..k] && sep !in s[k + 1..]
    ensures |Split(s, sep)| == 2 && Split(s, sep)[1] == s[k + 1..]
  {
    SplitWithoutSeparator(s[k + 1..], sep);
    SplitAt(s, sep, k);
  }

  /** A host with exactly two dots, at `i` and `j`, splits into the three
      labels around them. */
  lemma ThreeLabels(host: string, i: nat, j: nat)
    requires i < j < |host| && host[i] == '.' && host[j] == '.'
    requires '.' !in host[..i] && '.' !in host[i + 1..j] && '.' !in host[j + 1..]
    ensures |Split(host, '.')| == 3 && Count(host, '.') == 2
    ensures Split(host, '.')[0] == host[..i] && Split(host, '.')[2] == host[j + 1..]
  {
    var rest := host[i + 1..];
    var k := j - i - 1;
    SplitAt(host, '.', i);
    assert rest[..k] == host[i + 1..j];
    assert rest[k + 1..] == host[j + 1..];
    TwoParts(rest, '.', k);
    SplitCount(host, '.');
  }

  /** Where the dots of `secure-login.paypal.com` are. */
  lemma PaypalDots(host: string)
    requires host == "secure-login.paypal.com"
    ensures host[12] == '.' && host[19] == '.'
    ensures '.' !in host[..12] && '.' !in host[13..19] && '.' !in host[20..]
    ensures host[..12] == "secure-login" && host[20..] == "com"
  {
  }

  /** `secure-login.paypal.com` has two dots, `secure-login` before the
      first and `com` after the last. */
  lemma PaypalLabels(host: string)
    requires host == "secure-login.paypal.com"
    ensures Count(host, '.') == 2
    ensures Split(host, '.')[0] == "secure-login"
    ensures LastLabel(host) == "com"
  {
    PaypalDots(host);
    ThreeLabels(host, 12, 19);
  }

  /** Concatenation regrouped so that everything after the host is one
      string. */
  lemma Regroup(a: string, b: string, c: string, d: string, e: string)
    ensures a + b + c + d + e == a + b + (c + d + e)
  {
  }

  /** Any URL whose host is `secure-login.paypal.com` holds the suspicious
      word `secure`, whatever comes before and after the host. */
  lemma PaypalWord(host: string, before: string, after: string)
    requires host == "secure-login.paypal.com"
    ensures ContainsSuspiciousWord(before + host + after)
  {
    assert host[0..6] == "secure";
    ContainsLowerWord(host, "secure", 0);
    assert "secure" in SuspiciousWords;
    SuspiciousWordMonotone(host, before, after);
  }

  /** The features of a URL that parses as
      `https://secure-login.paypal.com/account/update?x=1` does: an https
      scheme but no `https` in the host; a hyphen in the first label; one
      query parameter; one subdomain label; a three-letter top-level label
      and the first directory `account`. */
  lemma PaypalUrl(parse: Parser, log2: real -> real, url: string, host: string, path: string, query: string)
    requires host == "secure-login.paypal.com" && path == "/account/update" && query == "x=1"
    requires url == "https://" + host + path + "?" + query
    requires parse(url) == Some(ParseResult("https", host, path, "", query, ""))
    ensures var f := LexicalFeatures(parse, log2, url);
      f.hostLen == 23 && f.pathLen == 19
      && f.hasHttpsScheme == 1 && f.hasHttpsToken == 0 && f.hasPrefixSuffix == 1
      && f.countQueryParams == 1 && f.countSubdomains == 1
      && f.tldLen == 3 && f.firstDirLen == 7 && f.hasIpHost == 0
      && f.containsSuspiciousWord == 1
  {
    PaypalHostFeatures(host);
    PaypalPathAndQuery(path, query);
    Regroup("https://", host, path, "?", query);
    PaypalWord(host, "https://", path + "?" + query);
  }

  /** `/account/update` has the first directory `account`, and `x=1` holds
      no `&`. */
  lemma PaypalPathAndQuery(path: string, query: string)
    requires path == "/account/update" && query == "x=1"
    ensures |FirstDir(path)| == 7 && Count(query, '&') == 0
  {
    assert '&' !in query;
    var dir, rest := path[1..8], path[9..];
    assert '/' !in dir;
    assert path == "/" + dir + "/" + rest;
    FirstDirOfRootedPath(dir, rest);
  }

  /** `192.168.0.1` matches the IPv4 pattern, one group at a time from
      the right. */
  lemma DottedQuad(h: string)
    requires h == "192.168.0.1"
    ensures IsIpv4Host(h)
  {
    var g3, g2, g1 := h[4..], h[8..], h[10..];
    assert g1 == "1" && g2 == "0.1" && g3 == "168.0.1";
    assert AllDigits(g1) && AllDigits(g2[..1]) && AllDigits(g3[..3]) && AllDigits(h[..3]);
    GroupThenIntro(g1, 1, 1);
    assert g2[2..] == g1;
    GroupThenIntro(g2, 1, 2);
    assert g3[4..] == g2;
    GroupThenIntro(g3, 3, 3);
    GroupThenIntro(h, 3, 4);
  }

  /** Any URL whose path is `/login` holds the suspicious word `login`,
      whatever comes before and after the path. */
  lemma IpWord(path: string, before: string, after: string)
    requires path == "/login"
    ensures ContainsSuspiciousWord(before + path + after)
  {
    assert path[1..6] == "login";
    ContainsLowerWord(path, "login", 1);
    assert "login" in SuspiciousWords;
    SuspiciousWordMonotone(path, before, after);
  }

  /** The features of a URL that parses as `http://192.168.0.1/login`
      does: a dotted-quad host, no https scheme, no query and no first
      directory. */
  lemma IpUrl(parse: Parser, log2: real -> real, url: string, host: string, path: string)
    requires host == "192.168.0.1" && path == "/login"
    requires url == "http://" + host + path
    requires parse(url) == Some(ParseResult("http", host, path, "", "", ""))
    ensures var f := LexicalFeatures(parse, log2, url);
      f.hasIpHost == 1 && f.hasHttpsScheme == 0
      && f.hostLen == 11 && f.countQueryParams == 0 && f.firstDirLen == 0
      && f.containsSuspiciousWord == 1
  {
    DottedQuad(host);
    assert '/' !in Tail(path);
    assert url == "http://" + host + path + "";
    IpWord(path, "http://" + host, "");
  }

  /** `count_query_params` for URLs whose queries parse as `a=1&b=2`,
      `a=1` and nothing. */
  lemma QueryParamExamples(parse: Parser, log2: real -> real, u2: string, u1: string, u0: string, q2: string, q1: string)
    requires q2 == "a=1&b=2" && q1 == "a=1"
    requires parse(u2).Some? && parse(u2).value.query == q2
    requires parse(u1).Some? && parse(u1).value.query == q1
    requires parse(u0).Some? && parse(u0).value.query == ""
    ensures LexicalFeatures(parse, log2, u2).countQueryParams == 2
    ensures LexicalFeatures(parse, log2, u1).countQueryParams == 1
    ensures LexicalFeatures(parse, log2, u0).countQueryParams == 0
  {
    AmpersandCounts(q2, q1);
    QueryParamCount(parse, log2, u2);
    QueryParamCount(parse, log2, u1);
    QueryParamCount(parse, log2, u0);
  }

  /** `a=1&b=2` holds one `&` and `a=1` none. */
  lemma AmpersandCounts(q2: string, q1: string)
    requires q2 == "a=1&b=2" && q1 == "a=1"
    ensures Count(q2, '&') == 1 && Count(q1, '&') == 0
  {
    assert q2 == q1 + "&" + "b=2";
    assert '&' !in q1 && '&' !in "b=2";
    CountAppend(q1 + "&", "b=2", '&');
    CountAppend(q1, "&", '&');
  }
}
