/** The page's state between events: the shuffled questions, the checked
    radio of each question's group, which of the score area and the submit
    and retry buttons are visible, and the last grade written into the
    score area. The handlers of the shuffle, submit and retry buttons, a
    click on a radio, and the initial load are the transitions. */
module Session {
  import opened Wrappers
  import opened Questions
  import opened Grading
  import opened Shuffle
  import opened Parser

  datatype Session = Session(
    questions: seq<Question>,
    selections: seq<Option<Label>>,
    scoreVisible: bool,
    submitVisible: bool,
    retryVisible: bool,
    shown: Option<Grade>)

  /** One radio group per question, and a checked radio always belongs to a
      rendered option. */
  predicate Valid(s: Session)
  {
    && |s.selections| == |s.questions|
    && forall k :: 0 <= k < |s.selections| && s.selections[k].Some? ==>
         Selectable(s.questions[k], s.selections[k].value)
  }

  /** No radio checked anywhere. */
  predicate Cleared(sels: seq<Option<Label>>)
  {
    forall k :: 0 <= k < |sels| ==> sels[k] == None
  }

  function NoSelections(n: nat): (sels: seq<Option<Label>>)
    ensures |sels| == n && Cleared(sels)
  {
    seq(n, k => None)
  }

  /** The freshly rendered quiz: nothing checked, the score area and the
      retry button hidden, the submit button shown. */
  function Start(qs: seq<Question>): (s: Session)
    ensures Valid(s) && s.questions == qs && Cleared(s.selections)
    ensures !s.scoreVisible && s.submitVisible && !s.retryVisible && s.shown == None
  {
    Session(qs, NoSelections(|qs|), false, true, false, None)
  }

  /** A click on option `l` of question `i`. The group's radios share one
      name, so the click replaces the group's earlier choice; only options
      with text are rendered, so any other click changes nothing. */
  function Select(s: Session, i: int, l: Label): (r: Session)
    requires Valid(s)
    ensures Valid(r)
    ensures r.questions == s.questions && |r.selections| == |s.selections|
    ensures r.scoreVisible == s.scoreVisible && r.submitVisible == s.submitVisible
    ensures r.retryVisible == s.retryVisible && r.shown == s.shown
    ensures forall k :: 0 <= k < |r.selections| && k != i ==> r.selections[k] == s.selections[k]
    ensures 0 <= i < |s.questions| && Selectable(s.questions[i], l) ==> r.selections[i] == Some(l)
    ensures !(0 <= i < |s.questions| && Selectable(s.questions[i], l)) ==> r == s
  {
    if 0 <= i < |s.questions| && Selectable(s.questions[i], l) then
      s.(selections := s.selections[i := Some(l)])
    else s
  }

  /** The submit handler: the grade of the current selections is written
      and shown, submit is hidden and retry shown; neither the questions nor
      the selections change. */
  function Submit(s: Session): (r: Session)
    requires Valid(s)
    ensures Valid(r)
    ensures r.questions == s.questions && r.selections == s.selections
    ensures r.scoreVisible && !r.submitVisible && r.retryVisible
    ensures r.shown == Some(GradeOf(s.questions, s.selections))
  {
    s.(shown := Some(GradeOf(s.questions, s.selections)),
       scoreVisible := true, submitVisible := false, retryVisible := true)
  }

  /** The retry handler: every radio unchecked, the score area and retry
      hidden, submit shown, the question order kept. The score text itself
      is not cleared. */
  function Retry(s: Session): (r: Session)
    requires Valid(s)
    ensures Valid(r)
    ensures r.questions == s.questions && |r.selections| == |s.selections|
    ensures Cleared(r.selections)
    ensures !r.scoreVisible && r.submitVisible && !r.retryVisible && r.shown == s.shown
  {
    s.(selections := NoSelections(|s.questions|),
       scoreVisible := false, submitVisible := true, retryVisible := false)
  }

  /** The shuffle handler: every radio unchecked, the score area hidden, the
      questions shuffled again with the given draws; the submit and retry
      buttons keep their visibility. */
  function Reshuffle(s: Session, random: seq<real>): (r: Session)
    requires Valid(s) && ValidRandom(|s.questions|, random)
    ensures Valid(r)
    ensures |r.questions| == |s.questions| && multiset(r.questions) == multiset(s.questions)
    ensures Cleared(r.selections)
    ensures !r.scoreVisible && r.submitVisible == s.submitVisible
    ensures r.retryVisible == s.retryVisible && r.shown == s.shown
  {
    var qs := FisherYates(s.questions, PicksOf(random, |s.questions|));
    s.(questions := qs, selections := NoSelections(|qs|), scoreVisible := false)
  }

  /** Loading the page: parse the text, shuffle the questions with the given
      draws, render them with nothing checked. `random` holds a draw for
      every character of the text but one, which is more than the shuffle
      can consume. */
  method Load(text: string, random: seq<real>) returns (s: Session)
    requires ValidRandom(|text|, random)
    ensures exists parsed ::
      && IsParseOf(text, parsed)
      && ValidRandom(|parsed|, random)
      && s.questions == FisherYates(parsed, PicksOf(random, |parsed|))
      && multiset(s.questions) == multiset(parsed)
    ensures Valid(s) && Cleared(s.selections)
    ensures !s.scoreVisible && s.submitVisible && !s.retryVisible && s.shown == None
  {
    var parsed := ParseCSV(text);
    var shuffled := ShuffleArray(parsed, random);
    s := Start(shuffled);
  }

  /** Radios of one group: the later click wins. */
  lemma SelectLastWins(s: Session, i: int, l1: Label, l2: Label)
    requires Valid(s) && 0 <= i < |s.questions| && Selectable(s.questions[i], l2)
    ensures Select(Select(s, i, l1), i, l2) == Select(s, i, l2)
  {
  }

  /** Clicks in different groups do not interfere. */
  lemma SelectCommutes(s: Session, i: int, l: Label, j: int, m: Label)
    requires Valid(s) && i != j
    ensures Select(Select(s, i, l), j, m) == Select(Select(s, j, m), i, l)
  {
  }

  /** Retry forgets every click made before it. */
  lemma RetryForgetsSelect(s: Session, i: int, l: Label)
    requires Valid(s)
    ensures Retry(Select(s, i, l)) == Retry(s)
  {
  }

  /** Submitting again without a new click shows the same grade. */
  lemma SubmitTwice(s: Session)
    requires Valid(s)
    ensures Submit(Submit(s)) == Submit(s)
  {
  }

  /** Submitting straight after a retry or a shuffle scores nothing and
      counts nothing as answered. */
  lemma SubmitAfterClearing(s: Session, random: seq<real>)
    requires Valid(s) && ValidRandom(|s.questions|, random)
    ensures var g := Submit(Retry(s)).shown.value; g.score == 0 && g.answered == 0
    ensures var g := Submit(Reshuffle(s, random)).shown.value; g.score == 0 && g.answered == 0
  {
    var r := Retry(s);
    NothingSelected(r.questions, r.selections);
    var t := Reshuffle(s, random);
    NothingSelected(t.questions, t.selections);
  }
}
