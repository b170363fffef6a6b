/** The submit handler's tally: a question counts as answered when one of
    its radios is checked and as correct when the checked radio's value is
    the question's answer; the percentage is `Math.round` of the share of
    correct answers, and 80 or more passes. */
module Grading {
  import opened Wrappers
  import opened Questions

  /** The checked radio's value equals `q.answer`. An answer that is not one
      of the labels A to D can never be matched. */
  predicate IsCorrect(q: Question, sel: Option<Label>)
  {
    sel.Some? && LabelName(sel.value) == q.answer
  }

  /** `score`: the number of questions whose selection is correct. */
  function Score(qs: seq<Question>, sels: seq<Option<Label>>): (s: nat)
    requires |sels| == |qs|
    ensures s <= |qs|
  {
    if |qs| == 0 then 0
    else
      var n := |qs| - 1;
      Score(qs[..n], sels[..n]) + (if IsCorrect(qs[n], sels[n]) then 1 else 0)
  }

  /** `answeredCount`: the number of questions with a selection. */
  function Answered(sels: seq<Option<Label>>): (a: nat)
    ensures a <= |sels|
  {
    if |sels| == 0 then 0
    else
      var n := |sels| - 1;
      Answered(sels[..n]) + (if sels[n].Some? then 1 else 0)
  }

  /** Only answered questions can be correct. */
  lemma {:induction false} ScoreBounds(qs: seq<Question>, sels: seq<Option<Label>>)
    requires |sels| == |qs|
    ensures Score(qs, sels) <= Answered(sels) <= |qs|
  {
    if |qs| > 0 {
      var n := |qs| - 1;
      ScoreBounds(qs[..n], sels[..n]);
    }
  }

  /** Full marks exactly when every question is answered correctly. */
  lemma {:induction false} FullMarks(qs: seq<Question>, sels: seq<Option<Label>>)
    requires |sels| == |qs|
    ensures Score(qs, sels) == |qs| <==> forall k :: 0 <= k < |qs| ==> IsCorrect(qs[k], sels[k])
  {
    if |qs| > 0 {
      var n := |qs| - 1;
      FullMarks(qs[..n], sels[..n]);
      ScoreBounds(qs[..n], sels[..n]);
      if forall k :: 0 <= k < |qs| ==> IsCorrect(qs[k], sels[k]) {
        forall k | 0 <= k < n ensures IsCorrect(qs[..n][k], sels[..n][k]) {
          assert qs[..n][k] == qs[k] && sels[..n][k] == sels[k];
        }
      }
      if Score(qs, sels) == |qs| {
        forall k | 0 <= k < |qs| ensures IsCorrect(qs[k], sels[k]) {
          if k < n {
            assert qs[..n][k] == qs[k] && sels[..n][k] == sels[k];
          }
        }
      }
    }
  }

  /** A score of zero exactly when no question is answered correctly. */
  lemma {:induction false} ZeroMarks(qs: seq<Question>, sels: seq<Option<Label>>)
    requires |sels| == |qs|
    ensures Score(qs, sels) == 0 <==> forall k :: 0 <= k < |qs| ==> !IsCorrect(qs[k], sels[k])
  {
    if |qs| > 0 {
      var n := |qs| - 1;
      ZeroMarks(qs[..n], sels[..n]);
      if forall k :: 0 <= k < |qs| ==> !IsCorrect(qs[k], sels[k]) {
        forall k | 0 <= k < n ensures !IsCorrect(qs[..n][k], sels[..n][k]) {
          assert qs[..n][k] == qs[k] && sels[..n][k] == sels[k];
        }
      }
      if Score(qs, sels) == 0 {
        forall k | 0 <= k < |qs| ensures !IsCorrect(qs[k], sels[k]) {
          if k < n {
            assert qs[..n][k] == qs[k] && sels[..n][k] == sels[k];
          }
        }
      }
    }
  }

  /** With nothing selected, nothing is answered and nothing scores. */
  lemma {:induction false} NothingSelected(qs: seq<Question>, sels: seq<Option<Label>>)
    requires |sels| == |qs|
    requires forall k :: 0 <= k < |sels| ==> sels[k] == None
    ensures Answered(sels) == 0 && Score(qs, sels) == 0
  {
    if |qs| > 0 {
      var n := |qs| - 1;
      assert forall k :: 0 <= k < n ==> sels[..n][k] == sels[k];
      NothingSelected(qs[..n], sels[..n]);
    }
  }

  /** The `forEach` over the questions, counting as it goes. */
  method Tally(qs: seq<Question>, sels: seq<Option<Label>>) returns (score: nat, answeredCount: nat)
    requires |sels| == |qs|
    ensures score == Score(qs, sels) && answeredCount == Answered(sels)
    ensures score <= answeredCount <= |qs|
  {
    score, answeredCount := 0, 0;
    var index := 0;
    while index < |qs|
      invariant 0 <= index <= |qs|
      invariant score == Score(qs[..index], sels[..index])
      invariant answeredCount == Answered(sels[..index])
    {
      assert qs[..index + 1][..index] == qs[..index];
      assert sels[..index + 1][..index] == sels[..index];
      if sels[index].Some? {
        answeredCount := answeredCount + 1;
        if LabelName(sels[index].value) == qs[index].answer {
          score := score + 1;
        }
      }
      index := index + 1;
    }
    assert qs[..index] == qs && sels[..index] == sels;
    ScoreBounds(qs, sels);
  }

  /** `Math.round((score / n) * 100)` for `n > 0`, in exact arithmetic: the
      whole number `p` with `p - 1/2 <= 100 * score / n < p + 1/2`, so halves
      round up. The bracket is stated multiplied through by `2 * n`. */
  function RoundPercent(score: nat, n: nat): (p: nat)
    requires 0 < n && score <= n
    ensures 2 * n * p - n <= 200 * score < 2 * n * p + n
    ensures p <= 100
  {
    var p := (200 * score + n) / (2 * n);
    RoundPercentBracket(score, n, p);
    p
  }

  /** The integer formula rounds to the nearest whole percentage and never
      exceeds 100. */
  lemma RoundPercentBracket(score: nat, n: nat, p: nat)
    requires 0 < n && score <= n && p == (200 * score + n) / (2 * n)
    ensures 2 * n * p - n <= 200 * score < 2 * n * p + n
    ensures p <= 100
  {
    var d := 2 * n;
    var m := 200 * score + n;
    assert m == d * p + m % d && 0 <= m % d < d;
    MulLtCancel(p, 101, d);
  }

  lemma MulLtCancel(a: nat, b: nat, c: nat)
    requires a * c < b * c
    ensures a < b
  {
  }

  lemma MulLe(a: nat, b: nat, c: nat)
    requires a <= b
    ensures a * c <= b * c
  {
  }

  /** All correct gives 100, none correct gives 0. */
  lemma RoundPercentEnds(n: nat)
    requires 0 < n
    ensures RoundPercent(n, n) == 100 && RoundPercent(0, n) == 0
  {
    var p := RoundPercent(n, n);
    MulLtCancel(99, p, 2 * n);
    var q := RoundPercent(0, n);
    MulLtCancel(q, 1, 2 * n);
  }

  /** The pass threshold in whole numbers: the rounded percentage reaches 80
      exactly when the share of correct answers is at least 79.5 percent. */
  lemma PassIff(score: nat, n: nat)
    requires 0 < n && score <= n
    ensures RoundPercent(score, n) >= 80 <==> 200 * score >= 159 * n
  {
    var p := RoundPercent(score, n);
    if p >= 80 {
      MulLe(80, p, 2 * n);
    } else {
      MulLe(p, 79, 2 * n);
    }
  }

  /** `percentage`: `NaN` when there are no questions (`0 / 0`). */
  datatype Percent = Pct(value: nat) | NaN

  /** What the submit handler shows: the tally, the percentage and whether
      the pass message was chosen. */
  datatype Grade = Grade(score: nat, answered: nat, percent: Percent, passed: bool)

  /** The grade of the current selections. `NaN >= 80` is false, so an empty
      quiz never passes. */
  function GradeOf(qs: seq<Question>, sels: seq<Option<Label>>): (g: Grade)
    requires |sels| == |qs|
    ensures g.score == Score(qs, sels) && g.answered == Answered(sels)
    ensures g.score <= g.answered <= |qs|
    ensures g.percent == NaN <==> |qs| == 0
    ensures g.percent.Pct? ==> g.percent.value <= 100
    ensures |qs| > 0 ==> g.percent == Pct(RoundPercent(g.score, |qs|))
    ensures g.passed <==> g.percent.Pct? && g.percent.value >= 80
    ensures g.passed <==> |qs| > 0 && 200 * g.score >= 159 * |qs|
  {
    ScoreBounds(qs, sels);
    var score := Score(qs, sels);
    var n := |qs|;
    if n == 0 then Grade(score, Answered(sels), NaN, false)
    else
      var p := RoundPercent(score, n);
      PassIff(score, n);
      Grade(score, Answered(sels), Pct(p), p >= 80)
  }

  /** Every question answered correctly gives 100 and a pass; none answered
      correctly gives 0 and no pass. */
  lemma GradeEnds(qs: seq<Question>, sels: seq<Option<Label>>)
    requires |sels| == |qs| && |qs| > 0
    ensures (forall k :: 0 <= k < |qs| ==> IsCorrect(qs[k], sels[k])) ==>
      GradeOf(qs, sels).percent == Pct(100) && GradeOf(qs, sels).passed
    ensures (forall k :: 0 <= k < |qs| ==> !IsCorrect(qs[k], sels[k])) ==>
      GradeOf(qs, sels).percent == Pct(0) && !GradeOf(qs, sels).passed
  {
    FullMarks(qs, sels);
    ZeroMarks(qs, sels);
    RoundPercentEnds(|qs|);
  }
}
