/** youtube_analyzer/sentiment_analysis.py: averaging the sentiment pipeline's predictions,
    binning the average into an effectiveness label, and picking the comment with the
    highest score or the greatest length. The sentiment pipeline is passed in as a
    function. */
module SentimentAnalysis {
  import opened Wrappers

  /** One prediction of the sentiment pipeline: its label, such as "POSITIVE" or
      "NEGATIVE", and the model's confidence in that label. The field `sentiment` holds
      the pipeline's `label` (a reserved word in Dafny). */
  datatype Prediction = Prediction(sentiment: string, score: real)

  /** A prediction read as positivity: the confidence of a "POSITIVE" label, and one minus
      the confidence of any other label. */
  function Positivity(p: Prediction): (r: real)
    ensures 0.0 <= p.score <= 1.0 ==> 0.0 <= r <= 1.0
    ensures p.sentiment == "POSITIVE" ==> r == p.score
    ensures p.sentiment != "POSITIVE" ==> r + p.score == 1.0
  {
    if p.sentiment == "POSITIVE" then p.score else 1.0 - p.score
  }

  predicate ScoresInUnitInterval(predictions: seq<Prediction>) {
    forall i :: 0 <= i < |predictions| ==> 0.0 <= predictions[i].score <= 1.0
  }

  /** The sum of the positivities of the predictions. */
  function TotalPositivity(predictions: seq<Prediction>): real {
    if predictions == [] then 0.0
    else TotalPositivity(predictions[..|predictions| - 1]) + Positivity(predictions[|predictions| - 1])
  }

  /** With every confidence in [0, 1], the total lies between 0 and the number of predictions. */
  lemma {:induction false} TotalPositivityBounds(predictions: seq<Prediction>)
    requires ScoresInUnitInterval(predictions)
    ensures 0.0 <= TotalPositivity(predictions) <= |predictions| as real
  {
    if predictions != [] {
      var init := predictions[..|predictions| - 1];
      assert ScoresInUnitInterval(init) by {
        forall i | 0 <= i < |init| ensures 0.0 <= init[i].score <= 1.0 {
          assert init[i] == predictions[i];
        }
      }
      TotalPositivityBounds(init);
    }
  }

  /** analyze_sentiment: the mean positivity of the pipeline's predictions for the texts;
      0 when the pipeline returns no prediction, and 0 when it raises (None here). */
  function AnalyzeSentiment(texts: seq<string>, classify: seq<string> -> Option<seq<Prediction>>): (average: real)
    ensures classify(texts).None? ==> average == 0.0
    ensures classify(texts).Some? && classify(texts).value == [] ==> average == 0.0
    ensures classify(texts).Some? && classify(texts).value != [] ==>
              average * (|classify(texts).value| as real) == TotalPositivity(classify(texts).value)
    ensures classify(texts).Some? && ScoresInUnitInterval(classify(texts).value) ==> 0.0 <= average <= 1.0
  {
    match classify(texts)
    case None => 0.0
    case Some(predictions) =>
      if predictions == [] then 0.0
      else
        var n := |predictions| as real;
        var total := TotalPositivity(predictions);
        assert ScoresInUnitInterval(predictions) ==> 0.0 <= total <= n by {
          if ScoresInUnitInterval(predictions) {
            TotalPositivityBounds(predictions);
          }
        }
        total / n
  }

  /** The four labels of evaluate_effectiveness, from worst to best. */
  datatype Effectiveness = NotEffective | SomewhatEffective | Effective | VeryEffective {

    /** The position of the label in the order above. */
    function Rank(): nat {
      match this
      case NotEffective => 0
      case SomewhatEffective => 1
      case Effective => 2
      case VeryEffective => 3
    }

    /** The string evaluate_effectiveness returns for the label. */
    function Name(): string {
      match this
      case NotEffective => "Not Effective"
      case SomewhatEffective => "Somewhat Effective"
      case Effective => "Effective"
      case VeryEffective => "Very Effective"
    }
  }

  /** evaluate_effectiveness: the label's rank is the number of thresholds 0.3, 0.5 and 0.7
      that the score strictly exceeds. */
  function EvaluateEffectiveness(score: real): (e: Effectiveness)
    ensures e.Rank() == (if score > 0.3 then 1 else 0) + (if score > 0.5 then 1 else 0)
                        + (if score > 0.7 then 1 else 0)
  {
    if score > 0.7 then VeryEffective
    else if score > 0.5 then Effective
    else if score > 0.3 then SomewhatEffective
    else NotEffective
  }

  /** A higher score never gets a lower label. */
  lemma EffectivenessMonotone(a: real, b: real)
    requires a <= b
    ensures EvaluateEffectiveness(a).Rank() <= EvaluateEffectiveness(b).Rank()
  {
  }

  /** The thresholds are strict: a score equal to one falls into the label below it. */
  lemma EffectivenessBoundaries()
    ensures EvaluateEffectiveness(0.71) == VeryEffective
    ensures EvaluateEffectiveness(0.7) == Effective
    ensures EvaluateEffectiveness(0.5) == SomewhatEffective
    ensures EvaluateEffectiveness(0.3) == NotEffective
    ensures EvaluateEffectiveness(0.0) == NotEffective
  {
  }

  /** The index Python's max(..., key=...) picks: the first of the greatest keys. */
  function FirstMaxIndex(keys: seq<real>): (k: nat)
    requires |keys| > 0
    ensures k < |keys|
    ensures forall j :: 0 <= j < |keys| ==> keys[j] <= keys[k]
    ensures forall j :: 0 <= j < k ==> keys[j] < keys[k]
  {
    if |keys| == 1 then 0
    else
      var best := FirstMaxIndex(keys[..|keys| - 1]);
      if keys[|keys| - 1] > keys[best] then |keys| - 1 else best
  }

  /** The raw confidence of each comment's prediction. */
  function RawScores(comments: seq<string>, classify: string -> Prediction): (keys: seq<real>)
    ensures |keys| == |comments|
    ensures forall i :: 0 <= i < |comments| ==> keys[i] == classify(comments[i]).score
  {
    seq(|comments|, i requires 0 <= i < |comments| => classify(comments[i]).score)
  }

  /** get_most_positive_comment as written: the first comment whose raw confidence is the
      highest, whatever the label the confidence belongs to; None where max() raises on an
      empty list. */
  function GetMostPositiveComment(comments: seq<string>, classify: string -> Prediction): (best: Option<string>)
    ensures best.None? <==> comments == []
    ensures best.Some? ==> forall c :: c in comments ==> classify(c).score <= classify(best.value).score
    ensures best.Some? ==>
              exists k :: 0 <= k < |comments| && comments[k] == best.value &&
                (forall j :: 0 <= j < k ==> classify(comments[j]).score < classify(best.value).score)
  {
    if comments == [] then None
    else
      var keys := RawScores(comments, classify);
      var k := FirstMaxIndex(keys);
      assert forall j :: 0 <= j < |comments| ==> keys[j] == classify(comments[j]).score;
      Some(comments[k])
  }

  /** The positivity of each comment's prediction. */
  function PositivityScores(comments: seq<string>, classify: string -> Prediction): (keys: seq<real>)
    ensures |keys| == |comments|
    ensures forall i :: 0 <= i < |comments| ==> keys[i] == Positivity(classify(comments[i]))
  {
    seq(|comments|, i requires 0 <= i < |comments| => Positivity(classify(comments[i])))
  }

  /** The most positive comment as intended: the first comment of greatest positivity. */
  function MostPositiveByPositivity(comments: seq<string>, classify: string -> Prediction): (best: Option<string>)
    ensures best.None? <==> comments == []
    ensures best.Some? ==> forall c :: c in comments ==> Positivity(classify(c)) <= Positivity(classify(best.value))
    ensures best.Some? ==>
              exists k :: 0 <= k < |comments| && comments[k] == best.value &&
                (forall j :: 0 <= j < k ==> Positivity(classify(comments[j])) < Positivity(classify(best.value)))
  {
    if comments == [] then None
    else
      var keys := PositivityScores(comments, classify);
      var k := FirstMaxIndex(keys);
      Some(comments[k])
  }

  /** A confidently negative comment beats a mildly positive one under the raw score, and
      loses to it under positivity. */
  lemma RawScorePicksNegativeComment()
    ensures var classify := (c: string) => if c == "great video" then Prediction("POSITIVE", 0.6)
                                          else Prediction("NEGATIVE", 0.99);
            GetMostPositiveComment(["great video", "awful"], classify) == Some("awful") &&
            MostPositiveByPositivity(["great video", "awful"], classify) == Some("great video")
  {
    var classify := (c: string) => if c == "great video" then Prediction("POSITIVE", 0.6)
                                  else Prediction("NEGATIVE", 0.99);
    var comments := ["great video", "awful"];
    assert classify(comments[1]).score > classify(comments[0]).score;
    assert Positivity(classify(comments[0])) > Positivity(classify(comments[1]));
  }

  /** get_most_engaging_comment: the first comment of greatest length; None where max()
      raises on an empty list. */
  function GetMostEngagingComment(comments: seq<string>): (longest: Option<string>)
    ensures longest.None? <==> comments == []
    ensures longest.Some? ==> forall c :: c in comments ==> |c| <= |longest.value|
    ensures longest.Some? ==>
              exists k :: 0 <= k < |comments| && comments[k] == longest.value &&
                (forall j :: 0 <= j < k ==> |comments[j]| < |longest.value|)
  {
    if comments == [] then None
    else
      var keys := seq(|comments|, i requires 0 <= i < |comments| => |comments[i]| as real);
      var k := FirstMaxIndex(keys);
      assert forall j :: 0 <= j < |comments| ==> keys[j] == |comments[j]| as real;
      Some(comments[k])
  }
}
