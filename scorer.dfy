/**
 * The lexical scorer of `analyze_video`: a comment is negative when it
 * contains at least one marker of `NEGATIVE_WORDS` as a substring
 * (case-sensitive, no tokenisation), and the negative rate and fire score
 * are guarded to 0 when there are no comments.
 */
module Scorer {

  /** The negative markers, in the application's order. */
  const NegativeWords: seq<string> := [
    "炎上", "謝罪", "最低", "最悪", "終わり", "引退", "許さない",
    "許せない", "ひどい", "酷い", "ありえない", "あり得ない", "失望",
    "がっかり", "裏切り", "嘘", "詐欺", "犯罪", "違法"
  ]

  /** `word` occurs in `text` starting at index `i`. */
  predicate OccursAt(text: string, word: string, i: int)
  {
    0 <= i && i + |word| <= |text| && text[i..i + |word|] == word
  }

  /** Substring test (`word in text`), scanning left to right. */
  function Contains(text: string, word: string): (b: bool)
    ensures b <==> exists i :: OccursAt(text, word, i)
    decreases |text|
  {
    if |word| > |text| then false
    else if text[..|word|] == word then (assert OccursAt(text, word, 0); true)
    else (ShiftOccurrences(text, word); Contains(text[1..], word))
  }

  /** Occurrences in `text[1..]` are the occurrences in `text` after index 0, shifted by one. */
  lemma ShiftOccurrences(text: string, word: string)
    requires text != [] && !OccursAt(text, word, 0)
    ensures (exists i :: OccursAt(text[1..], word, i)) <==> (exists i :: OccursAt(text, word, i))
  {
    forall i | OccursAt(text[1..], word, i) ensures OccursAt(text, word, i + 1) {
      assert text[1..][i..i + |word|] == text[i + 1..i + 1 + |word|];
    }
    forall i | OccursAt(text, word, i) ensures OccursAt(text[1..], word, i - 1) {
      assert text[1..][i - 1..i - 1 + |word|] == text[i..i + |word|];
    }
  }

  /**
   * `any(word in text for word in words)`: a comment is negative when it
   * contains some marker of the lexicon `words`.
   */
  function HasMarker(text: string, words: seq<string>): (b: bool)
    ensures b <==> exists k :: 0 <= k < |words| && Contains(text, words[k])
  {
    if words == [] then false
    else Contains(text, words[0]) || HasMarker(text, words[1..])
  }

  /** The positions of the negative comments. */
  function NegativeIndices(comments: seq<string>, words: seq<string>): set<int>
  {
    set i | 0 <= i < |comments| && HasMarker(comments[i], words)
  }

  /** `sum(1 for text in comments if any(...))`. */
  function NegativeCount(comments: seq<string>, words: seq<string>): (n: nat)
    ensures n <= |comments|
  {
    if comments == [] then 0
    else NegativeCount(comments[..|comments| - 1], words) + (if HasMarker(comments[|comments| - 1], words) then 1 else 0)
  }

  /** The negative positions of a list are those of its front plus possibly its last position. */
  lemma NegativeIndicesSnoc(comments: seq<string>, words: seq<string>)
    requires comments != []
    ensures var n := |comments| - 1;
      NegativeIndices(comments, words)
        == NegativeIndices(comments[..n], words) + (if HasMarker(comments[n], words) then {n} else {})
  {
    var n := |comments| - 1;
    var front := comments[..n];
    forall i | 0 <= i < n ensures front[i] == comments[i] {
    }
  }

  /** The negative count is the number of comments that contain a marker. */
  lemma {:induction false} NegativeCountIsIndexCount(comments: seq<string>, words: seq<string>)
    ensures NegativeCount(comments, words) == |NegativeIndices(comments, words)|
  {
    if comments != [] {
      var n := |comments| - 1;
      NegativeCountIsIndexCount(comments[..n], words);
      NegativeIndicesSnoc(comments, words);
      assert n !in NegativeIndices(comments[..n], words);
    }
  }

  /** Counting splits over concatenation. */
  lemma {:induction false} NegativeCountAppend(a: seq<string>, b: seq<string>, words: seq<string>)
    ensures NegativeCount(a + b, words) == NegativeCount(a, words) + NegativeCount(b, words)
  {
    if b == [] {
      assert a + b == a;
    } else {
      var n := |b| - 1;
      assert (a + b)[..|a + b| - 1] == a + b[..n];
      NegativeCountAppend(a, b[..n], words);
    }
  }

  /** All comments negative gives the full count; none gives zero. */
  lemma {:induction false} NegativeCountExtremes(comments: seq<string>, words: seq<string>)
    ensures (forall i :: 0 <= i < |comments| ==> HasMarker(comments[i], words)) ==> NegativeCount(comments, words) == |comments|
    ensures (forall i :: 0 <= i < |comments| ==> !HasMarker(comments[i], words)) ==> NegativeCount(comments, words) == 0
  {
    if comments != [] {
      var front := comments[..|comments| - 1];
      NegativeCountExtremes(front, words);
      assert forall i :: 0 <= i < |front| ==> front[i] == comments[i];
    }
  }

  /** `part` as a percentage of `whole`. */
  function Percentage(part: nat, whole: nat): (p: real)
    requires 0 < whole
    ensures p * (whole as real) == 100.0 * (part as real)
    ensures 0.0 <= p
    ensures part <= whole ==> p <= 100.0
  {
    var w := whole as real;
    var r := 100.0 * (part as real) / w;
    assert r * w == 100.0 * (part as real);
    assert part <= whole ==> 100.0 * (part as real) <= 100.0 * w;
    r
  }

  /** The figures computed from a comment list. */
  datatype Metrics = Metrics(total: nat, negativeCount: nat, negativeRate: real, fireScore: real)

  /**
   * Total, negative count, negative rate (a percentage) and fire score (the
   * rate weighted by `ln(total + 1)`); both real figures are 0 without
   * comments. `ln` stands for the natural logarithm of the platform.
   */
  function Score(comments: seq<string>, ln: nat -> real): (m: Metrics)
    ensures m.total == |comments| && m.negativeCount == NegativeCount(comments, NegativeWords)
    ensures m.negativeCount <= m.total
    ensures m.total == 0 ==> m.negativeRate == 0.0 && m.fireScore == 0.0
    ensures m.total > 0 ==> m.negativeRate == Percentage(m.negativeCount, m.total)
    ensures m.total > 0 ==> m.fireScore == m.negativeRate * ln(m.total + 1)
    ensures 0.0 <= m.negativeRate <= 100.0
  {
    var total := |comments|;
    var negative := NegativeCount(comments, NegativeWords);
    if total == 0 then Metrics(0, negative, 0.0, 0.0)
    else
      var rate := Percentage(negative, total);
      Metrics(total, negative, rate, rate * ln(total + 1))
  }

  /** With a non-negative logarithm factor the fire score is never negative. */
  lemma FireScoreNonNegative(comments: seq<string>, ln: nat -> real)
    requires ln(|comments| + 1) >= 0.0
    ensures Score(comments, ln).fireScore >= 0.0
  {
    var m := Score(comments, ln);
    if m.total > 0 {
      assert m.negativeRate >= 0.0;
    }
  }

  /** Three negative comments out of ten give a negative rate of 30. */
  lemma ThreeOfTen(comments: seq<string>, ln: nat -> real)
    requires |comments| == 10 && NegativeCount(comments, NegativeWords) == 3
    ensures Score(comments, ln).negativeRate == 30.0
  {
  }

  /** A marker inside a longer word still makes the comment negative. */
  lemma MarkerInsideWord()
    ensures HasMarker("大" + "炎上" + "中", NegativeWords)
  {
    var text := "大" + "炎上" + "中";
    assert text[1..3] == "炎上";
    assert OccursAt(text, NegativeWords[0], 1);
  }
}
