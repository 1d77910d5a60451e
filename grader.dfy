/** `verifyAnswers` of script.js: every exercise of the current course and
    level checked against the answer typed into its input, with per-item
    feedback and a score. */
module Grader {
  import opened Wrappers
  import opened Text
  import opened AnswerMatcher

  /** One exercise: the question, the canonical answer (accepted alternatives
      joined by `|`) and the type tag (`"number"` or anything else for text). */
  datatype Exercise = Exercise(question: string, answer: string, kind: string)

  /** What the feedback element of one exercise shows after grading. */
  datatype Feedback =
    | Untouched               // its input or feedback element is missing: skipped
    | Correct
    | Incorrect(shown: string) // the answer presented as "the" correct one

  /** The result of one grading pass: the feedback per exercise, in order,
      "correct of total", and whether the congratulation line appears. */
  datatype Score = Score(items: seq<Feedback>, correct: nat, total: nat, perfect: bool)

  /** The answer typed for exercise `i`, or `None` when the page has no
      input element for it. */
  function Input(inputs: map<nat, string>, i: nat): (r: Option<string>)
    ensures r.Some? <==> i in inputs
    ensures r.Some? ==> r.value == inputs[i]
  {
    if i in inputs then Some(inputs[i]) else None
  }

  /** The feedback one exercise receives. */
  function ItemFeedback(e: Exercise, input: Option<string>, parse: Parser): (f: Feedback)
    ensures f.Untouched? <==> input.None?
    ensures f.Correct? <==> input.Some? && Matches(input.value, e.answer, e.kind, parse)
    ensures f.Incorrect? ==> f.shown == FirstAlternative(e.answer)
  {
    match input
    case None => Untouched
    case Some(user) =>
      if Matches(user, e.answer, e.kind, parse) then Correct
      else Incorrect(FirstAlternative(e.answer))
  }

  /** How many feedback entries say "correct". */
  function CountCorrect(items: seq<Feedback>): (n: nat)
    ensures n <= |items|
  {
    if items == [] then 0
    else CountCorrect(items[..|items| - 1]) + (if items[|items| - 1].Correct? then 1 else 0)
  }

  /** The count reaches the number of entries exactly when every entry is
      correct. */
  lemma {:induction false} CountCorrectAll(items: seq<Feedback>)
    ensures CountCorrect(items) == |items| <==> forall i :: 0 <= i < |items| ==> items[i].Correct?
  {
    if items != [] {
      var front := items[..|items| - 1];
      CountCorrectAll(front);
      assert forall i :: 0 <= i < |front| ==> front[i] == items[i];
    }
  }

  /** The count is zero exactly when no entry is correct. */
  lemma {:induction false} CountCorrectNone(items: seq<Feedback>)
    ensures CountCorrect(items) == 0 <==> forall i :: 0 <= i < |items| ==> !items[i].Correct?
  {
    if items != [] {
      var front := items[..|items| - 1];
      CountCorrectNone(front);
      assert forall i :: 0 <= i < |front| ==> front[i] == items[i];
    }
  }

  /** A grading pass is perfect exactly when every exercise has an input
      and its answer matches: a skipped exercise spoils a perfect score. */
  lemma PerfectIffAllMatch(exercises: seq<Exercise>, inputs: map<nat, string>, parse: Parser, items: seq<Feedback>)
    requires |items| == |exercises|
    requires forall i :: 0 <= i < |exercises| ==> items[i] == ItemFeedback(exercises[i], Input(inputs, i), parse)
    ensures CountCorrect(items) == |exercises| <==> forall i :: 0 <= i < |exercises| ==>
      i in inputs && Matches(inputs[i], exercises[i].answer, exercises[i].kind, parse)
  {
    CountCorrectAll(items);
  }

  /** The feedback of every exercise, in order: the specification of the
      grading loop. */
  function Feedbacks(exercises: seq<Exercise>, inputs: map<nat, string>, parse: Parser): (r: seq<Feedback>)
    ensures |r| == |exercises|
  {
    if exercises == [] then []
    else
      var n := |exercises| - 1;
      Feedbacks(exercises[..n], inputs, parse) + [ItemFeedback(exercises[n], Input(inputs, n), parse)]
  }

  /** Entry `i` of the feedback is that of exercise `i` with the answer typed
      into input `i`. */
  lemma {:induction false} FeedbacksAt(exercises: seq<Exercise>, inputs: map<nat, string>, parse: Parser)
    ensures forall i :: 0 <= i < |exercises| ==>
      Feedbacks(exercises, inputs, parse)[i] == ItemFeedback(exercises[i], Input(inputs, i), parse)
    decreases |exercises|
  {
    if exercises != [] {
      var n := |exercises| - 1;
      var front := exercises[..n];
      FeedbacksAt(front, inputs, parse);
      assert forall i :: 0 <= i < n ==> front[i] == exercises[i];
    }
  }

  /** Grades `exercises` against the typed answers: one pass in order, a
      counter for the correct ones, the score summary at the end. */
  method Grade(exercises: seq<Exercise>, inputs: map<nat, string>, parse: Parser) returns (s: Score)
    ensures s.items == Feedbacks(exercises, inputs, parse)
    ensures s.total == |exercises| == |s.items|
    ensures forall i :: 0 <= i < |exercises| ==> s.items[i] == ItemFeedback(exercises[i], Input(inputs, i), parse)
    ensures s.correct == CountCorrect(s.items)
    ensures s.perfect <==> s.correct == s.total
  {
    var items: seq<Feedback> := [];
    var correct := 0;
    var i := 0;
    while i < |exercises|
      invariant 0 <= i <= |exercises|
      invariant items == Feedbacks(exercises[..i], inputs, parse)
      invariant correct == CountCorrect(items)
    {
      // checkAnswer on the typed value, then the "correct" or "incorrect"
      // message; an exercise without input element is skipped
      var f := ItemFeedback(exercises[i], Input(inputs, i), parse);
      if f.Correct? {
        correct := correct + 1;
      }
      assert exercises[..i + 1][..i] == exercises[..i];
      assert (items + [f])[..|items|] == items;
      items := items + [f];
      i := i + 1;
    }
    assert exercises[..i] == exercises;
    FeedbacksAt(exercises, inputs, parse);
    s := Score(items, correct, |exercises|, correct == |exercises|);
  }
}
