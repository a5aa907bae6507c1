/** The gauge colour of a fire score (`get_color`): four tiers split at 30, 60 and 80. */
module Gauge {

  const Green: string := "linear-gradient(90deg, #22c55e, #16a34a)"
  const Yellow: string := "linear-gradient(90deg, #eab308, #facc15)"
  const Orange: string := "linear-gradient(90deg, #f97316, #ea580c)"
  const Red: string := "linear-gradient(90deg, #ef4444, #b91c1c)"

  /** The CSS gradient of the gauge for `score`. */
  function GetColor(score: real): (css: string)
    ensures css == Green <==> score <= 30.0
    ensures css == Yellow <==> 30.0 < score <= 60.0
    ensures css == Orange <==> 60.0 < score <= 80.0
    ensures css == Red <==> 80.0 < score
  {
    if score <= 30.0 then Green
    else if score <= 60.0 then Yellow
    else if score <= 80.0 then Orange
    else Red
  }

  /** The position of a gradient in the tier order, from 0 (calm) to 3 (hottest). */
  function TierIndex(css: string): nat
  {
    if css == Green then 0 else if css == Yellow then 1 else if css == Orange then 2 else 3
  }

  /** A higher score never gets a calmer colour. */
  lemma ColorMonotone(a: real, b: real)
    requires a <= b
    ensures TierIndex(GetColor(a)) <= TierIndex(GetColor(b))
  {
  }
}
