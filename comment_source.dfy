/**
 * The comment and title client (`get_youtube_comments`, `get_video_title`).
 *
 * The remote API is replaced by its answers: the k-th request for a page of
 * comments is answered by the k-th `Response` of a sequence, and a request
 * past the end of that sequence fails. A missing field while reading a
 * comment out of a page is a `Malformed` item; in the application it raises
 * an exception, which is caught and turns the whole result into [].
 */
module CommentSource {
  import opened Wrappers

  /** Number of comments requested by the analysis (the default `max_comments`). */
  const MaxComments: int := 300

  /** The title used whenever the real title cannot be obtained. */
  const TitleUnavailable: string := "タイトル取得失敗"

  /** One entry of a page: the text of a top-level comment, or an entry lacking it. */
  datatype Item = Comment(text: string) | Malformed

  /** The answer to one page request. */
  datatype Response = Page(items: seq<Item>, nextToken: Option<string>) | Failed

  /** A page announces another one only with a non-empty continuation token. */
  predicate HasMore(token: Option<string>)
  {
    token.Some? && token.value != ""
  }

  /** The comments as page entries. */
  function AsItems(texts: seq<string>): (r: seq<Item>)
    ensures |r| == |texts|
  {
    if texts == [] then [] else [Comment(texts[0])] + AsItems(texts[1..])
  }

  /** All entries of all answered pages, in order. */
  function Flatten(rs: seq<Response>): seq<Item>
  {
    if rs == [] then []
    else (if rs[0].Page? then rs[0].items else []) + Flatten(rs[1..])
  }

  /** The number of leading responses that are pages announcing another page. */
  function TokenRun(rs: seq<Response>): (n: nat)
    ensures n <= |rs|
    ensures forall j :: 0 <= j < n ==> rs[j].Page? && HasMore(rs[j].nextToken)
    ensures n < |rs| ==> !(rs[n].Page? && HasMore(rs[n].nextToken))
  {
    if rs != [] && rs[0].Page? && HasMore(rs[0].nextToken) then 1 + TokenRun(rs[1..]) else 0
  }

  /**
   * Reading one page onto `acc`: each comment is appended and reading stops
   * right after the append that brings the count to `max`; a malformed
   * entry is a failure (None).
   */
  function ReadPage(items: seq<Item>, max: int, acc: seq<string>): Option<seq<string>>
  {
    if items == [] then Some(acc)
    else match items[0]
      case Malformed => None
      case Comment(t) =>
        if |acc| + 1 >= max then Some(acc + [t]) else ReadPage(items[1..], max, acc + [t])
  }

  /**
   * Page after page: stop once `max` comments are held or the page carries no
   * continuation token; any failed request or malformed entry is a failure.
   */
  function Collect(rs: seq<Response>, max: int, acc: seq<string>): Option<seq<string>>
  {
    if rs == [] then None
    else match rs[0]
      case Failed => None
      case Page(items, token) =>
        match ReadPage(items, max, acc)
        case None => None
        case Some(next) =>
          if |next| >= max || !HasMore(token) then Some(next) else Collect(rs[1..], max, next)
  }

  /** The comments returned: a failure anywhere yields the empty list. */
  function Collected(rs: seq<Response>, max: int): seq<string>
  {
    Collect(rs, max, []).GetOr([])
  }

  lemma {:induction false} AsItemsAppend(a: seq<string>, b: seq<string>)
    ensures AsItems(a + b) == AsItems(a) + AsItems(b)
  {
    if a != [] {
      assert (a + b)[1..] == a[1..] + b;
      AsItemsAppend(a[1..], b);
    } else {
      assert a + b == b;
    }
  }

  /**
   * A page read keeps what was held, adds a prefix of the page's entries,
   * respects the cap, and consumes the whole page whenever it ends below the
   * cap; a page without malformed entries is always read.
   */
  lemma {:induction false} ReadPageShape(items: seq<Item>, max: int, acc: seq<string>)
    ensures Malformed !in items ==> ReadPage(items, max, acc).Some?
    ensures ReadPage(items, max, acc).Some? ==>
      var r := ReadPage(items, max, acc).value;
      && acc <= r
      && AsItems(r[|acc|..]) <= items
      && |r| <= (if |acc| < max then max else |acc| + 1)
      && (|r| < max ==> AsItems(r[|acc|..]) == items)
  {
    if items != [] && items[0].Comment? {
      var t := items[0].text;
      var next := acc + [t];
      if |next| < max {
        ReadPageShape(items[1..], max, next);
        assert Malformed !in items ==> Malformed !in items[1..];
        if ReadPage(items, max, acc).Some? {
          var r := ReadPage(items, max, acc).value;
          assert r[|acc|..] == [t] + r[|next|..];
          AsItemsAppend([t], r[|next|..]);
          assert items == [items[0]] + items[1..];
        }
      } else {
        assert next[|acc|..] == [t];
      }
    }
  }

  /** What is collected extends `acc` with a prefix of all page entries, in order. */
  lemma {:induction false} CollectPrefix(rs: seq<Response>, max: int, acc: seq<string>)
    requires Collect(rs, max, acc).Some?
    ensures acc <= Collect(rs, max, acc).value
    ensures AsItems(Collect(rs, max, acc).value[|acc|..]) <= Flatten(rs)
  {
    var r := Collect(rs, max, acc).value;
    var items := rs[0].items;
    ReadPageShape(items, max, acc);
    var next := ReadPage(items, max, acc).value;
    assert Flatten(rs) == items + Flatten(rs[1..]);
    if !(|next| >= max || !HasMore(rs[0].nextToken)) {
      CollectPrefix(rs[1..], max, next);
      assert r[|acc|..] == next[|acc|..] + r[|next|..];
      AsItemsAppend(next[|acc|..], r[|next|..]);
    }
  }

  /** Starting below the cap, the collection never exceeds the cap. */
  lemma {:induction false} CollectBound(rs: seq<Response>, max: int, acc: seq<string>)
    requires Collect(rs, max, acc).Some?
    ensures |Collect(rs, max, acc).value| <= (if |acc| < max then max else |acc| + 1)
  {
    var items := rs[0].items;
    ReadPageShape(items, max, acc);
    var next := ReadPage(items, max, acc).value;
    if !(|next| >= max || !HasMore(rs[0].nextToken)) {
      CollectBound(rs[1..], max, next);
    }
  }

  /**
   * A collection that ends below the cap has read every page up to and
   * including the first page without a continuation token, completely.
   */
  lemma {:induction false} CollectShortReadsWholeStream(rs: seq<Response>, max: int, acc: seq<string>)
    requires Collect(rs, max, acc).Some?
    requires |Collect(rs, max, acc).value| < max
    ensures TokenRun(rs) < |rs| && rs[TokenRun(rs)].Page?
    ensures acc <= Collect(rs, max, acc).value
    ensures AsItems(Collect(rs, max, acc).value[|acc|..]) == Flatten(rs[..TokenRun(rs) + 1])
  {
    var r := Collect(rs, max, acc).value;
    var items := rs[0].items;
    CollectPrefix(rs, max, acc);
    ReadPageShape(items, max, acc);
    var next := ReadPage(items, max, acc).value;
    assert |next| < max ==> AsItems(next[|acc|..]) == items;
    if !HasMore(rs[0].nextToken) {
      assert r == next;
      FlattenFront(rs, 1);
    } else {
      var k := TokenRun(rs[1..]);
      assert TokenRun(rs) == k + 1;
      assert r == Collect(rs[1..], max, next).value;
      CollectShortReadsWholeStream(rs[1..], max, next);
      FlattenFront(rs, k + 2);
      assert AsItems(next[|acc|..]) == items;
      assert r[|acc|..] == next[|acc|..] + r[|next|..];
      AsItemsAppend(next[|acc|..], r[|next|..]);
    }
  }

  /** The entries of the first `n` responses are those of the first one followed by those of the next `n - 1`. */
  lemma FlattenFront(rs: seq<Response>, n: nat)
    requires 0 < n <= |rs|
    ensures Flatten(rs[..n]) == (if rs[0].Page? then rs[0].items else []) + Flatten(rs[1..][..n - 1])
  {
    assert rs[..n][0] == rs[0] && rs[..n][1..] == rs[1..][..n - 1];
  }

  /**
   * Nothing is requested after the first page without a continuation token:
   * the responses that would follow it do not affect the result.
   */
  lemma {:induction false} CollectStopsAtLastPage(rs: seq<Response>, rest: seq<Response>, max: int, acc: seq<string>)
    requires TokenRun(rs) < |rs|
    ensures Collect(rs[..TokenRun(rs) + 1] + rest, max, acc) == Collect(rs, max, acc)
  {
    var k := TokenRun(rs);
    var rs' := rs[..k + 1] + rest;
    assert rs'[0] == rs[0];
    if k > 0 {
      assert TokenRun(rs[1..]) == k - 1;
      assert rs'[1..] == rs[1..][..k] + rest;
      if rs[0].Page? {
        match ReadPage(rs[0].items, max, acc)
        case None =>
        case Some(next) =>
          CollectStopsAtLastPage(rs[1..], rest, max, next);
      }
    }
  }

  /**
   * Nothing is requested once the loop has stopped, whether at the cap or at
   * a page without a continuation token: responses beyond those that
   * produced a result do not change it.
   */
  lemma {:induction false} CollectNoOverFetch(rs: seq<Response>, rest: seq<Response>, max: int, acc: seq<string>)
    requires Collect(rs, max, acc).Some?
    ensures Collect(rs + rest, max, acc) == Collect(rs, max, acc)
  {
    assert (rs + rest)[0] == rs[0];
    var next := ReadPage(rs[0].items, max, acc).value;
    if |next| < max && HasMore(rs[0].nextToken) {
      assert (rs + rest)[1..] == rs[1..] + rest;
      CollectNoOverFetch(rs[1..], rest, max, next);
    }
  }

  /**
   * A failed request for a page that is actually requested empties the
   * whole result, even after pages that were read successfully.
   */
  lemma {:induction false} FailedFetchEmpties(rs: seq<Response>, max: int, acc: seq<string>, j: nat)
    requires j < |rs| && rs[j].Failed?
    requires forall i :: 0 <= i < j ==> rs[i].Page? && HasMore(rs[i].nextToken) && Malformed !in rs[i].items
    requires |acc| + |Flatten(rs[..j])| < max
    ensures Collect(rs, max, acc) == None
  {
    if j > 0 {
      var items := rs[0].items;
      ReadPageShape(items, max, acc);
      var next := ReadPage(items, max, acc).value;
      assert rs[..j][0] == rs[0] && rs[..j][1..] == rs[1..][..j - 1];
      assert Flatten(rs[..j]) == items + Flatten(rs[1..][..j - 1]);
      assert |next| <= |acc| + |items| by {
        assert |AsItems(next[|acc|..])| <= |items|;
      }
      FailedFetchEmpties(rs[1..], max, next, j - 1);
    }
  }

  /**
   * Reaching a malformed entry while below the cap makes the page read fail,
   * whatever follows it on the page.
   */
  lemma {:induction false} ReadPageMalformed(texts: seq<string>, rest: seq<Item>, max: int, acc: seq<string>)
    requires |acc| + |texts| < max
    ensures ReadPage(AsItems(texts) + [Malformed] + rest, max, acc) == None
  {
    var items := AsItems(texts) + [Malformed] + rest;
    if texts == [] {
      assert items[0] == Malformed;
    } else {
      assert items[0] == Comment(texts[0]);
      assert items[1..] == AsItems(texts[1..]) + [Malformed] + rest;
      ReadPageMalformed(texts[1..], rest, max, acc + [texts[0]]);
    }
  }

  /**
   * A malformed entry on a page that is actually read, reached before the
   * cap, empties the whole result, even after pages that were read
   * successfully.
   */
  lemma {:induction false} MalformedEntryEmpties(rs: seq<Response>, max: int, acc: seq<string>, j: nat, texts: seq<string>, rest: seq<Item>)
    requires j < |rs| && rs[j].Page? && rs[j].items == AsItems(texts) + [Malformed] + rest
    requires forall i :: 0 <= i < j ==> rs[i].Page? && HasMore(rs[i].nextToken) && Malformed !in rs[i].items
    requires |acc| + |Flatten(rs[..j])| + |texts| < max
    ensures Collect(rs, max, acc) == None
  {
    if j == 0 {
      ReadPageMalformed(texts, rest, max, acc);
    } else {
      var items := rs[0].items;
      ReadPageShape(items, max, acc);
      var next := ReadPage(items, max, acc).value;
      assert rs[..j][0] == rs[0] && rs[..j][1..] == rs[1..][..j - 1];
      assert Flatten(rs[..j]) == items + Flatten(rs[1..][..j - 1]);
      assert |next| <= |acc| + |items| by {
        assert |AsItems(next[|acc|..])| <= |items|;
      }
      MalformedEntryEmpties(rs[1..], max, next, j - 1, texts, rest);
    }
  }

  /** A page of well-formed comments that stays below the cap is read whole. */
  lemma {:induction false} ReadPageWhole(texts: seq<string>, max: int, acc: seq<string>)
    requires |acc| + |texts| < max
    ensures ReadPage(AsItems(texts), max, acc) == Some(acc + texts)
  {
    if texts == [] {
      assert acc + texts == acc;
    } else {
      ReadPageWhole(texts[1..], max, acc + [texts[0]]);
      assert acc + [texts[0]] + texts[1..] == acc + texts;
    }
  }

  /** A single page without a continuation token and below the cap is returned whole. */
  lemma LastPageReadWhole(texts: seq<string>, token: Option<string>, max: int)
    requires |texts| < max && !HasMore(token)
    ensures Collected([Page(AsItems(texts), token)], max) == texts
  {
    ReadPageWhole(texts, max, []);
    assert [] + texts == texts;
  }

  /**
   * The paginated fetch loop: request a page, append its comments one by one
   * until the cap is reached, and follow the continuation token.
   */
  method GetYoutubeComments(responses: seq<Response>, maxComments: int) returns (comments: seq<string>)
    ensures comments == Collected(responses, maxComments)
    ensures |comments| <= (if maxComments >= 1 then maxComments else 1)
    ensures AsItems(comments) <= Flatten(responses)
  {
    var acc: seq<string> := [];
    var k := 0;
    while true
      invariant 0 <= k <= |responses|
      invariant Collect(responses, maxComments, []) == Collect(responses[k..], maxComments, acc)
      decreases |responses| - k
    {
      if k == |responses| {
        return [];
      }
      var response := responses[k];
      k := k + 1;
      if response.Failed? {
        return [];
      }
      var items := response.items;
      ghost var before := acc;
      var i := 0;
      while i < |items|
        invariant 0 <= i <= |items|
        invariant ReadPage(items, maxComments, before) == ReadPage(items[i..], maxComments, acc)
      {
        if items[i].Malformed? {
          return [];
        }
        acc := acc + [items[i].text];
        i := i + 1;
        if |acc| >= maxComments {
          break;
        }
      }
      assert ReadPage(items, maxComments, before) == Some(acc);
      if |acc| >= maxComments || !HasMore(response.nextToken) {
        comments := acc;
        break;
      }
      assert responses[k - 1..][1..] == responses[k..];
    }
    if Collect(responses, maxComments, []).Some? {
      CollectBound(responses, maxComments, []);
      CollectPrefix(responses, maxComments, []);
      assert comments[0..] == comments;
    }
  }

  /** A title response: the titles of the listed videos, None where the field is missing. */
  datatype TitleResponse = Videos(titles: seq<Option<string>>) | TitleFailed

  /**
   * The title of the first listed video; the sentinel when the request
   * failed, listed nothing, or the first entry lacks its title.
   */
  function GetVideoTitle(response: TitleResponse): (title: string)
    ensures response.Videos? && |response.titles| > 0 && response.titles[0].Some? ==>
      title == response.titles[0].value
    ensures !(response.Videos? && |response.titles| > 0 && response.titles[0].Some?) ==>
      title == TitleUnavailable
  {
    match response
    case TitleFailed => TitleUnavailable
    case Videos(titles) => if titles == [] then TitleUnavailable else titles[0].GetOr(TitleUnavailable)
  }
}
