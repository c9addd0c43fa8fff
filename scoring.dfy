/** The threshold policy applied to a similarity value: `scroering` (the
    credit given) and `need_review` (the flag for a human check). */
module Scoring {

  /** Similarity at or above which an answer earns full credit. */
  const FullCredit: real := 0.85
  /** Similarity at or above which an answer earns half credit. */
  const HalfCredit: real := 0.75

  /** `scroering`: full credit, half credit or none, by threshold. */
  function Score(similarity: real): (r: real)
    ensures r == 1.0 || r == 0.5 || r == 0.0
  {
    if similarity >= FullCredit then 1.0
    else if similarity >= HalfCredit then 0.5
    else 0.0
  }

  /** `need_review`. */
  predicate NeedReview(similarity: real) {
    similarity < FullCredit
  }

  /** Each score band is exactly one interval of similarity. */
  lemma ScoreBands(similarity: real)
    ensures Score(similarity) == 1.0 <==> similarity >= 0.85
    ensures Score(similarity) == 0.5 <==> 0.75 <= similarity < 0.85
    ensures Score(similarity) == 0.0 <==> similarity < 0.75
  {
  }

  /** A higher similarity never earns less credit. */
  lemma ScoreMonotone(s1: real, s2: real)
    requires s1 <= s2
    ensures Score(s1) <= Score(s2)
  {
  }

  /** An answer is flagged for review exactly when it falls short of full
      credit. */
  lemma ReviewIffNotFullCredit(similarity: real)
    ensures NeedReview(similarity) <==> Score(similarity) != 1.0
  {
  }

  /** The boundaries belong to the upper band: 0.85 is full credit and not
      flagged, 0.75 is half credit; just below each, the lower band. */
  lemma Boundaries()
    ensures Score(0.85) == 1.0 && !NeedReview(0.85)
    ensures Score(0.849999) == 0.5 && NeedReview(0.849999)
    ensures Score(0.75) == 0.5 && NeedReview(0.75)
    ensures Score(0.749999) == 0.0 && NeedReview(0.749999)
  {
  }
}
