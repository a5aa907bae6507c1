# Controversy ranking of video comments — a Dafny model of the analysis pipeline

The application takes a video URL, checks that its network location (the
`netloc` of the parsed URL: the host together with any user info and port,
letter case kept) is exactly one of the platform's three hostnames, pulls
the video ID out of the URL, fetches the video's title and up to 300 of its
newest comments page by page, counts the comments that contain a negative
marker word, turns the count into a negative rate and a "fire score", and
upserts `(video_id, title, fire_score)` into a `rankings` table from which a
top-10 leaderboard is read. A fire score is displayed with one of four gauge
colours.

This project models that pipeline from `app.py`:

- `resolver.dfy` (module `Resolver`): the network-location allow-list and
  the two ID-extraction rules, written as explicit scans with the
  leftmost-match semantics of a regular-expression search;
- `comment_source.dfy` (module `CommentSource`): the paginated comment loop
  as an imperative method checked against a page-by-page reference function,
  and the title fallback;
- `scorer.dfy` (module `Scorer`): substring matching against the negative
  lexicon, the negative count, and the zero-total guard on rate and score;
- `ranking.dfy` (module `Ranking`): the table as a `map` inside a
  `RankingStore` class, with the upsert and the top-10 read;
- `gauge.dfy` (module `Gauge`): the four-tier colour function;
- `pipeline.dfy` (module `Pipeline`): `analyze_video`, with its early exits
  and its single upsert;
- `wrappers.dfy` (module `Wrappers`): the `Option` type used for `None`.

The remote video API is replaced by its answers. The title request becomes
a `TitleResponse`. The comment requests become a sequence of `Response`
values, and the k-th request is answered by the k-th element. A request
past the end of that sequence fails. The network location that the URL parser
produces is an input of the pipeline next to the URL text. The natural logarithm
is a parameter `ln`.

Some behaviours of the code that a reader might not expect, all reproduced
by the model:

- The title sentinel is the string `"タイトル取得失敗"` from the code.
- A rule of `extract_video_id` matches at the first position where its
  literal (`v=` or `youtu.be/`) is followed by a character other than its
  stop character. For example, `"v=&v=abc"` yields `"abc"`. The `v=` rule
  also fires inside a longer parameter name: `"https://youtu.be/abc?dev=1"`
  yields `"1"` (`Resolver.QueryRuleInsideLongerKey`).
- The comment loop appends a comment before comparing the count with the
  cap. So a cap of 0 or less still returns the first comment of the first
  page, and the bound is `max(maxComments, 1)`.
- The loop stops on an empty continuation token as well as on a missing
  one. The check in the code is a truthiness test.

## Model

| member | source | states |
|---|---|---|
| `Resolver.IsValidYoutubeUrl` | app.py:62-64 | a URL is accepted exactly when its network location (`netloc`: host plus any user info and port, case kept) equals "www.youtube.com", "youtube.com" or "youtu.be"; so "youtube.com:443", "user@youtube.com" and "YouTube.com" are rejected |
| `Resolver.ExtendedHostRejected` | app.py:62-64 | an allowed host followed by more characters (".evil", ":443") is rejected |
| `Resolver.PrefixedHostRejected` | app.py:62-64 | an allowed host preceded by more characters is accepted only as "www." + "youtube.com"; "m.youtube.com" is rejected |
| `Resolver.TakeUntil` | app.py:71-72 | the greedy capture `[^&]+` / `[^?]+`: the result is a prefix of the text without the stop character, ending at a stop character or at the end |
| `Resolver.FirstMatchFrom` | app.py:75 | the search finds the leftmost position where the rule matches, and no match exists before it (or none at all) |
| `Resolver.Search` | app.py:75-77 | a rule's captured group is non-empty and free of the stop character, and is absent exactly when the rule matches nowhere |
| `Resolver.VideoIdOf` | app.py:69-78 | the ID is non-empty; there is none exactly when neither rule matches |
| `Resolver.ExtractVideoId` | app.py:69-78 | the loop over the two rules with early return gives the first rule's group, else the second's, else None |
| `Resolver.QueryRuleFirst` | app.py:70-77 | when the `v=` rule matches anywhere, its group is the ID, whatever the short-link rule would give |
| `Resolver.RuleCaptures` | app.py:75-77 | for either rule, `a + prefix + id + rest` with no earlier match, a stop-free non-empty id and rest empty or starting with the stop character, captures exactly id |
| `Resolver.QueryParameterExtracted` | app.py:71 | `a + "v=" + id + rest`, with no earlier match, an `&`-free id and rest empty or starting with `&`, yields exactly id |
| `Resolver.ShortLinkExtracted` | app.py:72 | `a + "youtu.be/" + id + rest`, with no `v=` match, no earlier short-link match, a `?`-free id and rest empty or starting with `?`, yields exactly id |
| `Resolver.QueryExample` | app.py:71 | "https://www.youtube.com/watch?v=ABC123&x=1" yields "ABC123" |
| `Resolver.ShortLinkExample` | app.py:72 | "https://youtu.be/abc123?t=5" yields "abc123" |
| `Resolver.QueryRuleInsideLongerKey` | app.py:71 | the `v=` rule also matches inside "dev=1": "https://youtu.be/abc?dev=1" yields "1" |
| `CommentSource.ReadPageShape` | app.py:99-104 | reading a page keeps what was held and adds a prefix of the page's comments; the cap holds; a page is read whole when the count ends below the cap; a page without malformed entries never fails |
| `CommentSource.ReadPageWhole` | app.py:99-104 | a page of well-formed comments that stays below the cap is appended whole |
| `CommentSource.CollectPrefix` | app.py:86-113 | the comments returned are, in order, a prefix of the concatenated comments of the pages |
| `CommentSource.CollectBound` | app.py:103-107 | starting below the cap, the collection never exceeds the cap |
| `CommentSource.CollectShortReadsWholeStream` | app.py:103-111 | a result below the cap is exactly all comments of the pages up to and including the first page without a continuation token |
| `CommentSource.CollectStopsAtLastPage` | app.py:109-111 | no page after the first page without a continuation token is requested: later responses do not change the result |
| `CommentSource.CollectNoOverFetch` | app.py:103-111 | once the loop stops, at the cap or at a page without a continuation token, no further page is requested: extra responses after those that produced a result do not change it |
| `CommentSource.FailedFetchEmpties` | app.py:115-117 | a failed request for a page that is actually requested makes the whole result empty, even after good pages |
| `CommentSource.ReadPageMalformed` | app.py:99-104 | a page read that reaches an entry without the comment text before the cap fails, whatever follows on the page |
| `CommentSource.MalformedEntryEmpties` | app.py:99-117 | an entry without the comment text, on a page that is actually read and reached before the cap, makes the whole result empty, even after good pages |
| `CommentSource.LastPageReadWhole` | app.py:99-113 | a single page without a continuation token and below the cap is returned whole |
| `CommentSource.GetYoutubeComments` | app.py:83-117 | the fetch loop returns the reference collection ([] on any failure), at most max(cap, 1) comments, in page order |
| `CommentSource.GetVideoTitle` | app.py:119-129 | the first listed video's title, or the sentinel when the request failed, listed nothing or lacks the field |
| `Scorer.Contains` | app.py:148 | `word in text` holds exactly when the word occurs at some position of the text |
| `Scorer.HasMarker` | app.py:148 | `any(...)` holds exactly when some marker of the lexicon occurs in the text |
| `Scorer.NegativeCount` | app.py:146-149 | the negative count is at most the number of comments |
| `Scorer.NegativeCountIsIndexCount` | app.py:146-149 | the negative count equals the number of comments containing at least one marker |
| `Scorer.NegativeCountAppend` | app.py:146-149 | the count over two lists joined is the sum of their counts |
| `Scorer.NegativeCountExtremes` | app.py:146-149 | all comments negative gives the total; none gives 0 |
| `Scorer.Percentage` | app.py:151 | the rate times the total is 100 times the count, and lies in [0, 100] when the count is at most the total |
| `Scorer.Score` | app.py:145-152 | total and negative count; 0 <= rate <= 100; rate and fire score are 0 when the total is 0; otherwise the rate is the percentage and the score is rate * ln(total + 1) |
| `Scorer.FireScoreNonNegative` | app.py:152 | with a non-negative logarithm the fire score is never negative |
| `Scorer.ThreeOfTen` | app.py:151 | three negative comments of ten give a rate of 30 |
| `Scorer.MarkerInsideWord` | app.py:52-57 | a marker inside a longer word ("大炎上中") still makes the comment negative |
| `Ranking.Upsert` | app.py:171-178 | after the upsert the key holds exactly the new title and score, every other key is unchanged, and the table grows only for a new key |
| `Ranking.UpsertLastWriteWins` | app.py:174-177 | two upserts of one key leave only the second title and score |
| `Ranking.UpsertIdempotent` | app.py:171-178 | repeating an upsert changes nothing |
| `Ranking.HighestScore` | app.py:194 | the chosen key is among the candidates and no candidate scores higher |
| `Ranking.RankingStore.constructor` | app.py:36-42 | a newly created table is empty (an existing table keeps its rows; the model starts from a new one) |
| `Ranking.RankingStore.SaveRanking` | app.py:167-182 | the new table is the upsert of the old one |
| `Ranking.RankingStore.GetTopRankings` | app.py:187-202 | min(10, size) distinct rows of the table, scores non-increasing, no row left out scoring above a returned one |
| `Gauge.GetColor` | app.py:207-215 | score <= 30, (30, 60], (60, 80] and > 80 get four distinct gradients, each exactly on its range |
| `Gauge.ColorMonotone` | app.py:207-215 | a higher score never gets a calmer tier |
| `Pipeline.AnalyzeVideo` | app.py:134-162 | an invalid network location or a URL without an ID gives None and leaves the table unchanged; otherwise the result holds the ID, title and scores, and the table is the old one upserted with exactly that ID, title and score |
| `Pipeline.FailedCommentFetchScoresZero` | app.py:145-152 | when the comment requests fail, total, count, rate and score are all 0 |
| `Pipeline.ShortLinkScenario` | app.py:134-154 | the URL "https://youtu.be/abc123?t=5", the title "Test Video" and ten comments with three negative give ID "abc123", total 10, rate 30 and score 30 * ln(11) |

## Left out

- The web layer: the Flask app, the `index` route, `render_template`, `request.form` and `app.run` (app.py:10, 220-242). These are HTTP and template glue.
- The environment-variable checks and the database connection at start-up (app.py:15-28, 33-47). These are process bootstrap. The freshly created table is the empty map of `Ranking.RankingStore.constructor`.
- The database driver: connections, cursors and commits (app.py:168-182, 188-200). The table is an in-memory map. The atomicity and concurrency of the SQL upsert are not modelled.
- The remote API client: `build`, the `list(...).execute()` calls and their request parameters (`part`, `maxResults=100`, `order="time"`). Their answers are inputs. The value of a continuation token is not passed back into the model. The k-th answer is the answer to the k-th request.
- A URL the parser rejects (an unmatched `[` or `]` in the network location) raises `ValueError` out of `analyze_video`; the model has no counterpart to this exception.
- The URL parser: the network location is an input, and the model does not relate it to the URL text. The regular-expression engine is replaced by the scans in `Resolver`.
- `Scorer.Score`: the negative rate is the exact percentage. The code rounds it to two decimals in floating point. The fire score is the rate times a supplied `ln(total + 1)`, and its rounding to two decimals is not modelled either. Floating-point numerics are outside the model.
- `Ranking.RankingStore.GetTopRankings`: the order among rows with equal scores is not fixed. The SQL query leaves it unspecified.
- The error messages printed when a fetch fails (app.py:116). This is logging only.
- The `not video_id` test in `analyze_video` is modelled, but its empty-string case never arises, because an extracted ID is never empty.
- static/app.js is not part of this model. It only wires browser events and opens a share link.
