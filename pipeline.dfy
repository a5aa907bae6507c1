/**
 * The analysis orchestrator (`analyze_video`): validate the URL, extract the
 * video ID, fetch title and comments (both fail soft), score the comments,
 * upsert the ranking and return the result. An unsupported network
 * location or a URL without an ID gives no result and leaves the store
 * untouched. The network location is the parser's output; a URL the parser
 * rejects is outside this model.
 */
module Pipeline {
  import opened Wrappers
  import Resolver
  import CommentSource
  import Scorer
  import Ranking

  /** The record returned for one analysed video. */
  datatype AnalysisResult = AnalysisResult(
    videoId: string, title: string, total: nat, negativeRate: real, fireScore: real)

  /**
   * The analysis of `url`, whose parsed network location is `netloc`, with
   * the remote answers to the title request and to the comment page
   * requests given as inputs; `ln` is the natural logarithm.
   */
  method AnalyzeVideo(
    store: Ranking.RankingStore, url: string, netloc: string,
    titleResponse: CommentSource.TitleResponse, commentResponses: seq<CommentSource.Response>,
    ln: nat -> real)
    returns (result: Option<AnalysisResult>)
    modifies store
    ensures !Resolver.IsValidYoutubeUrl(netloc) ==> result.None? && store.table == old(store.table)
    ensures Resolver.VideoIdOf(url).None? ==> result.None? && store.table == old(store.table)
    ensures Resolver.IsValidYoutubeUrl(netloc) && Resolver.VideoIdOf(url).Some? ==>
      var id := Resolver.VideoIdOf(url).value;
      var title := CommentSource.GetVideoTitle(titleResponse);
      var m := Scorer.Score(CommentSource.Collected(commentResponses, CommentSource.MaxComments), ln);
      && result == Some(AnalysisResult(id, title, m.total, m.negativeRate, m.fireScore))
      && store.table == Ranking.Upsert(old(store.table), id, title, m.fireScore)
  {
    if !Resolver.IsValidYoutubeUrl(netloc) {
      return None;
    }
    var videoId := Resolver.ExtractVideoId(url);
    if videoId.None? || videoId.value == "" {
      return None;
    }
    var id := videoId.value;
    var title := CommentSource.GetVideoTitle(titleResponse);
    var comments := CommentSource.GetYoutubeComments(commentResponses, CommentSource.MaxComments);
    var m := Scorer.Score(comments, ln);
    store.SaveRanking(id, title, m.fireScore);
    return Some(AnalysisResult(id, title, m.total, m.negativeRate, m.fireScore));
  }

  /**
   * When every comment request fails the analysis still scores zero: no
   * comments, a negative rate of 0 and a fire score of 0.
   */
  lemma FailedCommentFetchScoresZero(commentResponses: seq<CommentSource.Response>, ln: nat -> real)
    requires commentResponses == [] || commentResponses[0].Failed?
    ensures Scorer.Score(CommentSource.Collected(commentResponses, CommentSource.MaxComments), ln)
      == Scorer.Metrics(0, 0, 0.0, 0.0)
  {
  }

  /**
   * The short-link scenario: "https://youtu.be/abc123?t=5" on network location
   * "youtu.be", the title "Test Video" and one final page of ten comments of
   * which three are negative give the ID "abc123", ten comments, a negative
   * rate of 30 and a fire score of 30 * ln(11).
   */
  lemma ShortLinkScenario(texts: seq<string>, ln: nat -> real)
    requires |texts| == 10 && Scorer.NegativeCount(texts, Scorer.NegativeWords) == 3
    ensures Resolver.IsValidYoutubeUrl("youtu.be")
    ensures Resolver.VideoIdOf("https://" + "youtu.be/" + "abc123" + "?t=5") == Some("abc123")
    ensures CommentSource.GetVideoTitle(CommentSource.Videos([Some("Test Video")])) == "Test Video"
    ensures var m := Scorer.Score(
        CommentSource.Collected([CommentSource.Page(CommentSource.AsItems(texts), None)], CommentSource.MaxComments), ln);
      m.total == 10 && m.negativeRate == 30.0 && m.fireScore == 30.0 * ln(11)
  {
    Resolver.ShortLinkExample();
    var responses := [CommentSource.Page(CommentSource.AsItems(texts), None)];
    CommentSource.LastPageReadWhole(texts, None, CommentSource.MaxComments);
    assert CommentSource.Collected(responses, CommentSource.MaxComments) == texts;
    Scorer.ThreeOfTen(texts, ln);
  }
}
