/**
 * URL gate and video-ID extraction (`is_valid_youtube_url`, `extract_video_id`).
 *
 * The host is the `netloc` that the URL parser produces; it is an input here.
 * The two regular expressions of `extract_video_id` are modelled as explicit
 * scans with the leftmost-match semantics of a regular-expression search.
 */
module Resolver {
  import opened Wrappers

  /** The hostnames accepted by the URL gate. */
  const AllowedHosts: seq<string> := ["www.youtube.com", "youtube.com", "youtu.be"]

  /**
   * A URL is accepted exactly when its network location (host with any user
   * info and port, case kept) is one of the allowed hostnames.
   */
  function IsValidYoutubeUrl(netloc: string): (ok: bool)
    ensures ok <==> netloc == "www.youtube.com" || netloc == "youtube.com" || netloc == "youtu.be"
  {
    netloc in AllowedHosts
  }

  /** An allowed host followed by anything more (".evil", ":443", ...) is rejected. */
  lemma ExtendedHostRejected(host: string, extra: string)
    requires IsValidYoutubeUrl(host)
    requires extra != []
    ensures !IsValidYoutubeUrl(host + extra)
  {
    var h := host + extra;
    assert h[0] == host[0];
    assert |host| > 5 && h[5] == host[5];
  }

  /**
   * The only allowed host that ends with another allowed host is
   * "www.youtube.com": a host such as "m.youtube.com" is rejected.
   */
  lemma PrefixedHostRejected(extra: string, host: string)
    requires IsValidYoutubeUrl(host)
    requires extra != []
    ensures IsValidYoutubeUrl(extra + host) <==> extra == "www." && host == "youtube.com"
  {
    var h := extra + host;
    assert h[..|extra|] == extra;
    assert h[|extra|] == host[0];
  }

  /**
   * One extraction rule: the literal `prefix` followed by a non-empty run of
   * characters other than `stop`, captured greedily (`v=([^&]+)` is
   * Rule("v=", '&'), `youtu\.be/([^?]+)` is Rule("youtu.be/", '?')).
   */
  datatype Rule = Rule(prefix: string, stop: char)

  const QueryRule := Rule("v=", '&')
  const ShortLinkRule := Rule("youtu.be/", '?')

  /** The rules in the order they are tried. */
  const Rules: seq<Rule> := [QueryRule, ShortLinkRule]

  /** The rule's pattern matches `s` starting at index `i`. */
  predicate MatchesAt(s: string, rule: Rule, i: int)
  {
    && 0 <= i
    && i + |rule.prefix| < |s|
    && s[i..i + |rule.prefix|] == rule.prefix
    && s[i + |rule.prefix|] != rule.stop
  }

  /** The longest prefix of `s` that does not contain `stop`. */
  function TakeUntil(s: string, stop: char): (r: string)
    ensures r <= s
    ensures stop !in r
    ensures |r| == |s| || s[|r|] == stop
  {
    if s == [] || s[0] == stop then [] else [s[0]] + TakeUntil(s[1..], stop)
  }

  /** The leftmost index at or after `from` where the rule matches. */
  function FirstMatchFrom(s: string, rule: Rule, from: nat): (r: Option<nat>)
    ensures r.Some? ==> from <= r.value && MatchesAt(s, rule, r.value)
    ensures r.Some? ==> forall j :: from <= j < r.value ==> !MatchesAt(s, rule, j)
    ensures r.None? ==> forall j :: from <= j ==> !MatchesAt(s, rule, j)
    decreases |s| - from
  {
    if |s| <= from + |rule.prefix| then None
    else if MatchesAt(s, rule, from) then Some(from)
    else FirstMatchFrom(s, rule, from + 1)
  }

  /** The group captured by a search for the rule's pattern in `s`, if any. */
  function Search(s: string, rule: Rule): (r: Option<string>)
    ensures r.Some? ==> r.value != [] && rule.stop !in r.value
    ensures r.None? <==> forall j :: !MatchesAt(s, rule, j)
  {
    match FirstMatchFrom(s, rule, 0)
    case None => None
    case Some(i) => Some(TakeUntil(s[i + |rule.prefix|..], rule.stop))
  }

  /** The video ID of `url`: the first rule that matches wins. */
  function VideoIdOf(url: string): (r: Option<string>)
    ensures r.Some? ==> r.value != []
    ensures r.None? <==> Search(url, QueryRule).None? && Search(url, ShortLinkRule).None?
  {
    match Search(url, QueryRule)
    case Some(id) => Some(id)
    case None => Search(url, ShortLinkRule)
  }

  /** Tries the rules in order and returns the first captured group. */
  method ExtractVideoId(url: string) returns (id: Option<string>)
    ensures id == VideoIdOf(url)
    ensures id.None? <==> forall k, j :: 0 <= k < |Rules| ==> !MatchesAt(url, Rules[k], j)
  {
    assert Rules[0] == QueryRule && Rules[1] == ShortLinkRule;
    var k := 0;
    while k < |Rules|
      invariant 0 <= k <= |Rules|
      invariant forall m :: 0 <= m < k ==> Search(url, Rules[m]).None?
    {
      var found := Search(url, Rules[k]);
      if found.Some? {
        return found;
      }
      k := k + 1;
    }
    return None;
  }

  /**
   * When `a + prefix + id + rest` has no match of the rule inside `a`, `id`
   * is non-empty and free of the stop character and `rest` is empty or
   * starts with it, the rule captures exactly `id`.
   */
  lemma RuleCaptures(a: string, rule: Rule, id: string, rest: string)
    requires forall j :: j < |a| ==> !MatchesAt(a + rule.prefix + id + rest, rule, j)
    requires id != [] && rule.stop !in id
    requires rest == [] || rest[0] == rule.stop
    ensures Search(a + rule.prefix + id + rest, rule) == Some(id)
  {
    var url := a + rule.prefix + id + rest;
    var i := |a|;
    var n := |rule.prefix|;
    assert url[i..i + n] == rule.prefix;
    assert url[i + n..] == id + rest;
    assert url[i + n] == id[0];
    LeftmostMatch(url, rule, i);
    TakeUntilExact(id, rest, rule.stop);
  }

  /** A match with no match before it is the one the search finds. */
  lemma LeftmostMatch(s: string, rule: Rule, i: nat)
    requires MatchesAt(s, rule, i)
    requires forall j :: j < i ==> !MatchesAt(s, rule, j)
    ensures Search(s, rule) == Some(TakeUntil(s[i + |rule.prefix|..], rule.stop))
  {
    var r := FirstMatchFrom(s, rule, 0);
    assert r.Some?;
    assert !(r.value < i);
    assert !(i < r.value);
  }

  /**
   * A URL of the form `a + "v=" + id + rest`, where the query rule does not
   * match before `a` ends, `id` has no '&' and `rest` is empty or starts
   * with '&', yields exactly `id` (for instance "...?v=ABC123&x=1").
   */
  lemma QueryParameterExtracted(a: string, id: string, rest: string)
    requires forall j :: j < |a| ==> !MatchesAt(a + "v=" + id + rest, QueryRule, j)
    requires id != [] && '&' !in id
    requires rest == [] || rest[0] == '&'
    ensures VideoIdOf(a + "v=" + id + rest) == Some(id)
  {
    RuleCaptures(a, QueryRule, id, rest);
  }

  /**
   * A URL of the form `a + "youtu.be/" + id + rest` with no query rule match
   * anywhere, no short-link match before `a` ends, no '?' in `id` and `rest`
   * empty or starting with '?', yields exactly `id` (for instance
   * "https://youtu.be/XYZ789?t=5").
   */
  lemma ShortLinkExtracted(a: string, id: string, rest: string)
    requires forall j :: !MatchesAt(a + "youtu.be/" + id + rest, QueryRule, j)
    requires forall j :: j < |a| ==> !MatchesAt(a + "youtu.be/" + id + rest, ShortLinkRule, j)
    requires id != [] && '?' !in id
    requires rest == [] || rest[0] == '?'
    ensures VideoIdOf(a + "youtu.be/" + id + rest) == Some(id)
  {
    RuleCaptures(a, ShortLinkRule, id, rest);
    assert Search(a + "youtu.be/" + id + rest, QueryRule).None?;
  }

  /** Taking up to `stop` from `id + rest` gives `id` when `rest` begins at a `stop`. */
  lemma {:induction false} TakeUntilExact(id: string, rest: string, stop: char)
    requires stop !in id
    requires rest == [] || rest[0] == stop
    ensures TakeUntil(id + rest, stop) == id
  {
    if id != [] {
      assert (id + rest)[1..] == id[1..] + rest;
      TakeUntilExact(id[1..], rest, stop);
    }
  }

  /** The query rule wins over the short-link rule when both match. */
  lemma QueryRuleFirst(url: string, j: nat)
    requires MatchesAt(url, QueryRule, j)
    ensures VideoIdOf(url) == Search(url, QueryRule)
    ensures VideoIdOf(url).Some? && '&' !in VideoIdOf(url).value
  {
  }

  /** No match of the rule starts inside `a` when `a` lacks the rule's first character. */
  lemma NoMatchBefore(a: string, rest: string, rule: Rule)
    requires rule.prefix != [] && rule.prefix[0] !in a
    ensures forall j :: j < |a| ==> !MatchesAt(a + rest, rule, j)
  {
    forall j | 0 <= j < |a| ensures !MatchesAt(a + rest, rule, j) {
      var s := a + rest;
      assert s[j] == a[j];
      if j + |rule.prefix| <= |s| {
        assert s[j..j + |rule.prefix|][0] == s[j];
      }
    }
  }

  // The examples below write each URL as its pieces joined with `+`, the
  // form in which the general lemmas above describe it.

  /** "https://youtu.be/abc123?t=5" yields "abc123". */
  lemma ShortLinkExample()
    ensures VideoIdOf("https://" + "youtu.be/" + "abc123" + "?t=5") == Some("abc123")
  {
    var url := "https://" + "youtu.be/" + "abc123" + "?t=5";
    assert 'v' !in url && 'y' !in "https://";
    NoMatchBefore(url, [], QueryRule);
    assert url + [] == url;
    NoMatchBefore("https://", "youtu.be/" + "abc123" + "?t=5", ShortLinkRule);
    assert "https://" + ("youtu.be/" + "abc123" + "?t=5") == url;
    ShortLinkExtracted("https://", "abc123", "?t=5");
  }

  /** "https://www.youtube.com/watch?v=ABC123&x=1" yields "ABC123". */
  lemma QueryExample()
    ensures VideoIdOf("https://www.youtube.com/watch?" + "v=" + "ABC123" + "&x=1") == Some("ABC123")
  {
    var a := "https://www.youtube.com/watch?";
    assert 'v' !in a;
    NoMatchBefore(a, "v=" + "ABC123" + "&x=1", QueryRule);
    assert a + ("v=" + "ABC123" + "&x=1") == a + "v=" + "ABC123" + "&x=1";
    QueryParameterExtracted(a, "ABC123", "&x=1");
  }

  /**
   * The query rule also fires inside a longer parameter name: in
   * "https://youtu.be/abc?dev=1" the text "v=1" inside "dev=1" wins over the
   * short link and the ID is "1".
   */
  lemma QueryRuleInsideLongerKey()
    ensures VideoIdOf("https://youtu.be/abc?de" + "v=" + "1" + "") == Some("1")
  {
    var a := "https://youtu.be/abc?de";
    assert 'v' !in a;
    NoMatchBefore(a, "v=" + "1" + "", QueryRule);
    assert a + ("v=" + "1" + "") == a + "v=" + "1" + "";
    QueryParameterExtracted(a, "1", "");
  }
}
