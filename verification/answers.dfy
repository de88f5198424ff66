/**
 * Rendering a question's answers (`createAnswerOptions`) and the list of
 * questions (`displayQuestions`).
 *
 * The script reorders the answers with `sort(() => Math.random() - 0.5)`;
 * here the outcome of that sort is the parameter `order`, any permutation
 * of the answer positions: answer `order[k]` is shown in place `k`. The
 * HTML of one radio button is the datatype `AnswerOption`.
 */
module Answers {
  import opened Decimal

  /** One question as the trivia API returns it. */
  datatype Question = Question(prompt: string, correctAnswer: string, incorrectAnswers: seq<string>)

  /** One `<input type="radio">`: its `name` (the radio group), its
      `value`, and whether it carries `data-correct="true"`. */
  datatype AnswerOption = AnswerOption(group: string, value: string, isCorrect: bool)

  /** One rendered question block: the prompt paragraph and its options. */
  datatype QuestionBlock = QuestionBlock(prompt: string, options: seq<AnswerOption>)

  /** `order` lists each of the positions `0 .. n-1` exactly once. */
  predicate IsPermutation(order: seq<nat>, n: nat) {
    && |order| == n
    && (forall i :: 0 <= i < n ==> order[i] < n)
    && (forall i, j :: 0 <= i < j < n ==> order[i] != order[j])
  }

  /** `s` rearranged so that element `order[k]` lands at place `k`. */
  function Reorder<T>(s: seq<T>, order: seq<nat>): (r: seq<T>)
    requires IsPermutation(order, |s|)
    ensures |r| == |s|
  {
    seq(|s|, k requires 0 <= k < |s| => s[order[k]])
  }

  /** Renumbers a position once position `gone` has been removed. */
  function Squeeze(x: nat, gone: nat): nat
    requires x != gone
  {
    if x < gone then x else x - 1
  }

  /** The rest of a permutation once its first entry `order[0]` is taken
      out and the remaining positions are renumbered. */
  function Remaining(order: seq<nat>, n: nat): (order': seq<nat>)
    requires n > 0 && IsPermutation(order, n)
    ensures IsPermutation(order', n - 1)
  {
    var g := order[0];
    seq(n - 1, i requires 0 <= i < n - 1 => Squeeze(order[i + 1], g))
  }

  /** Reordering puts `s[order[0]]` first, then reorders what is left of
      `s` by the remaining permutation. */
  lemma ReorderFirst<T>(s: seq<T>, order: seq<nat>)
    requires |s| > 0 && IsPermutation(order, |s|)
    ensures Reorder(s, order)
      == [s[order[0]]] + Reorder(s[..order[0]] + s[order[0] + 1..], Remaining(order, |s|))
  {
    var g := order[0];
    var s' := s[..g] + s[g + 1..];
    var order' := Remaining(order, |s|);
    forall i | 0 <= i < |s| - 1
      ensures Reorder(s', order')[i] == s[order[i + 1]]
    {
      var x := order[i + 1];
      if x < g {
        assert s'[x] == s[x];
      } else {
        assert s'[x - 1] == s[g + 1..][x - 1 - g];
      }
    }
  }

  /** Rearranging by a permutation keeps every element with its multiplicity. */
  lemma {:induction false} ReorderPreservesMultiset<T>(s: seq<T>, order: seq<nat>)
    requires IsPermutation(order, |s|)
    ensures multiset(Reorder(s, order)) == multiset(s)
    decreases |s|
  {
    if |s| > 0 {
      var g := order[0];
      var s' := s[..g] + s[g + 1..];
      ReorderPreservesMultiset(s', Remaining(order, |s|));
      ReorderFirst(s, order);
      assert s == s[..g] + [s[g]] + s[g + 1..];
    }
  }

  /** The radio-group name of question `index`: `"answer" + index`. */
  function GroupName(index: nat): string {
    "answer" + ToDecimal(index)
  }

  /** Distinct questions get distinct radio groups. */
  lemma GroupNameInjective(i: nat, j: nat)
    ensures GroupName(i) == GroupName(j) ==> i == j
  {
    if GroupName(i) == GroupName(j) {
      assert ToDecimal(i) == GroupName(i)[6..] == GroupName(j)[6..] == ToDecimal(j);
      DecimalInjective(i, j);
    }
  }

  /** The displayed texts of the options, in order. */
  function Values(options: seq<AnswerOption>): (vs: seq<string>)
    ensures |vs| == |options|
    ensures forall k :: 0 <= k < |options| ==> vs[k] == options[k].value
  {
    seq(|options|, k requires 0 <= k < |options| => options[k].value)
  }

  /** The radio button for one answer. */
  function Label(answer: string, correctAnswer: string, index: nat): AnswerOption {
    AnswerOption(GroupName(index), answer, answer == correctAnswer)
  }

  /** `createAnswerOptions(correctAnswer, incorrectAnswers, questionIndex)`:
      one option per answer, showing the answers in some rearrangement, all
      in the question's radio group, and marked correct exactly when the
      shown text equals the correct answer. */
  function CreateAnswerOptions(correctAnswer: string, incorrectAnswers: seq<string>, index: nat, order: seq<nat>)
    : (options: seq<AnswerOption>)
    requires IsPermutation(order, 1 + |incorrectAnswers|)
    ensures |options| == 1 + |incorrectAnswers|
    ensures multiset(Values(options)) == multiset([correctAnswer] + incorrectAnswers)
    ensures forall k :: 0 <= k < |options| ==> options[k].group == GroupName(index)
    ensures forall k :: 0 <= k < |options| ==> (options[k].isCorrect <==> options[k].value == correctAnswer)
  {
    var answers := [correctAnswer] + incorrectAnswers;
    var shown := Reorder(answers, order);
    ReorderPreservesMultiset(answers, order);
    var options := seq(|shown|, k requires 0 <= k < |shown| => Label(shown[k], correctAnswer, index));
    assert Values(options) == shown;
    options
  }

  /** Exactly one option is marked correct. */
  ghost predicate ExactlyOneMarked(options: seq<AnswerOption>) {
    exists k :: 0 <= k < |options| && options[k].isCorrect
      && forall j :: 0 <= j < |options| && options[j].isCorrect ==> j == k
  }

  /** An element found at two places occurs at least twice. */
  lemma TwoPlacesCountTwice<T>(s: seq<T>, i: int, j: int)
    requires 0 <= i < j < |s| && s[i] == s[j]
    ensures multiset(s)[s[i]] >= 2
  {
    assert s == s[..j] + s[j..];
    assert s[..j][i] == s[i];
    assert s[j..][0] == s[i];
  }

  /** An element found at one place only occurs once. */
  lemma OnePlaceCountsOnce<T>(s: seq<T>, k: int)
    requires 0 <= k < |s|
    requires forall j :: 0 <= j < |s| && s[j] == s[k] ==> j == k
    ensures multiset(s)[s[k]] == 1
  {
    assert s == s[..k] + [s[k]] + s[k + 1..];
    assert s[k] !in s[..k];
    assert s[k] !in s[k + 1..];
  }

  /** An element counted once sits at one place only. */
  lemma CountOnceOnePlace<T>(s: seq<T>, k: int)
    requires 0 <= k < |s| && multiset(s)[s[k]] == 1
    ensures forall j :: 0 <= j < |s| && s[j] == s[k] ==> j == k
  {
    forall j | 0 <= j < |s| && s[j] == s[k]
      ensures j == k
    {
      if j < k {
        TwoPlacesCountTwice(s, j, k);
      } else if k < j {
        TwoPlacesCountTwice(s, k, j);
      }
    }
  }

  /** When exactly the options showing `correct` are marked, one option is
      marked exactly when `correct` is shown once. */
  lemma MarkedOnceIffShownOnce(options: seq<AnswerOption>, correct: string)
    requires forall k :: 0 <= k < |options| ==> (options[k].isCorrect <==> options[k].value == correct)
    ensures ExactlyOneMarked(options) <==> multiset(Values(options))[correct] == 1
  {
    var vs := Values(options);
    if ExactlyOneMarked(options) {
      var k :| 0 <= k < |options| && options[k].isCorrect
        && forall j :: 0 <= j < |options| && options[j].isCorrect ==> j == k;
      assert forall j :: 0 <= j < |vs| && vs[j] == vs[k] ==> options[j].isCorrect;
      OnePlaceCountsOnce(vs, k);
    }
    if multiset(vs)[correct] == 1 {
      assert correct in multiset(vs);
      var k :| 0 <= k < |vs| && vs[k] == correct;
      CountOnceOnePlace(vs, k);
      assert forall j :: 0 <= j < |options| && options[j].isCorrect ==> vs[j] == vs[k];
      assert options[k].isCorrect;
    }
  }

  /** One option is marked correct exactly when the correct answer is not
      also listed among the incorrect ones; otherwise several are. */
  lemma OneCorrectOption(correctAnswer: string, incorrectAnswers: seq<string>, index: nat, order: seq<nat>)
    requires IsPermutation(order, 1 + |incorrectAnswers|)
    ensures ExactlyOneMarked(CreateAnswerOptions(correctAnswer, incorrectAnswers, index, order))
      <==> correctAnswer !in incorrectAnswers
  {
    var options := CreateAnswerOptions(correctAnswer, incorrectAnswers, index, order);
    assert multiset([correctAnswer] + incorrectAnswers)[correctAnswer] == 1 + multiset(incorrectAnswers)[correctAnswer];
    MarkedOnceIffShownOnce(options, correctAnswer);
  }

  /** Every question's order is a permutation of its answer positions. */
  predicate OrdersFit(questions: seq<Question>, orders: seq<seq<nat>>) {
    && |orders| == |questions|
    && forall i :: 0 <= i < |questions| ==> IsPermutation(orders[i], 1 + |questions[i].incorrectAnswers|)
  }

  /** `displayQuestions(questions)`: the container's new contents, one
      block per question in order, replacing whatever it held before. */
  function DisplayQuestions(questions: seq<Question>, orders: seq<seq<nat>>): (blocks: seq<QuestionBlock>)
    requires OrdersFit(questions, orders)
    ensures |blocks| == |questions|
    ensures forall i :: 0 <= i < |blocks| ==> blocks[i].prompt == questions[i].prompt
    ensures forall i :: 0 <= i < |blocks| ==>
      (var q := questions[i];
       var options := blocks[i].options;
       && |options| == 1 + |q.incorrectAnswers|
       && multiset(Values(options)) == multiset([q.correctAnswer] + q.incorrectAnswers)
       && (forall k :: 0 <= k < |options| ==> options[k].group == GroupName(i))
       && (forall k :: 0 <= k < |options| ==> (options[k].isCorrect <==> options[k].value == q.correctAnswer)))
  {
    seq(|questions|, i requires 0 <= i < |questions| && OrdersFit(questions, orders) =>
      QuestionBlock(questions[i].prompt,
        CreateAnswerOptions(questions[i].correctAnswer, questions[i].incorrectAnswers, i, orders[i])))
  }

  /** Options of different questions never share a radio group, so picking
      an answer for one question leaves every other question's pick alone. */
  lemma GroupsDistinctAcrossQuestions(questions: seq<Question>, orders: seq<seq<nat>>, i: int, j: int, a: int, b: int)
    requires OrdersFit(questions, orders)
    requires 0 <= i < |questions| && 0 <= j < |questions| && i != j
    requires 0 <= a < |DisplayQuestions(questions, orders)[i].options|
    requires 0 <= b < |DisplayQuestions(questions, orders)[j].options|
    ensures DisplayQuestions(questions, orders)[i].options[a].group
      != DisplayQuestions(questions, orders)[j].options[b].group
  {
    GroupNameInjective(i, j);
  }
}
