/**
 * The question records a lesson page hands to the quiz controller, and the
 * texts derived from them: the text recorded for a submitted answer and the
 * canonical answer text shown in the explanation carousel.
 */
module Questions {
  import opened Optional

  /** The two question types that are answered by picking one choice; both behave the same. */
  datatype ChoiceKind = MultipleChoice | TrueFalse

  /**
   * A question: `Choice` for types 'choice' and 'true_false', `Sort` for
   * word ordering, `Other` for any other type (only its optional
   * `correctAnswer`, missing written as "", is ever read).
   */
  datatype Question =
    | Choice(kind: ChoiceKind, choices: seq<string>, correct: int)
    | Sort(words: seq<string>, correctOrder: seq<int>, flexibleOrder: seq<seq<int>>)
    | Other(correctAnswer: string)

  /** A word placed in the answer area of a sort question, with its original index. */
  datatype SortItem = SortItem(word: string, index: int)

  /** `Array.prototype.join`. */
  function Join(parts: seq<string>, sep: string): string
  {
    if |parts| == 0 then ""
    else if |parts| == 1 then parts[0]
    else parts[0] + sep + Join(parts[1..], sep)
  }

  /** `choices[i] || ''`: a missing entry reads as the empty text. */
  function ChoiceAnswerText(choices: seq<string>, selected: int): string
  {
    if 0 <= selected < |choices| then choices[selected] else ""
  }

  /** `words[i]` as `join` renders it: a missing entry becomes the empty text. */
  function WordAt(words: seq<string>, i: int): string
  {
    if 0 <= i < |words| then words[i] else ""
  }

  /** `currentSortAnswer.map(item => item.index)`: the submitted order. */
  function PlacedIndices(items: seq<SortItem>): seq<int>
  {
    seq(|items|, k requires 0 <= k < |items| => items[k].index)
  }

  /** `currentSortAnswer.map(item => item.word).join(' ')`: the text recorded for a sort answer. */
  function SortAnswerText(items: seq<SortItem>): string
  {
    Join(seq(|items|, k requires 0 <= k < |items| => items[k].word), " ")
  }

  /** getCorrectAnswerText; `None` is the `undefined` of a choice question whose `correct` is out of range. */
  function CorrectAnswerText(q: Question): (r: Option<string>)
    ensures r.None? <==> q.Choice? && !(0 <= q.correct < |q.choices|)
    ensures q.Other? ==> r == Some(q.correctAnswer)
  {
    match q
    case Choice(_, choices, correct) => if 0 <= correct < |choices| then Some(choices[correct]) else None
    case Sort(words, correctOrder, _) =>
      Some(Join(seq(|correctOrder|, k requires 0 <= k < |correctOrder| => WordAt(words, correctOrder[k])), " "))
    case Other(correctAnswer) => Some(correctAnswer)
  }

  /** Picking the correct choice records exactly the canonical answer text. */
  lemma ChoiceTextAgrees(q: Question)
    requires q.Choice? && 0 <= q.correct < |q.choices|
    ensures CorrectAnswerText(q) == Some(ChoiceAnswerText(q.choices, q.correct))
  {
  }

  /**
   * Placing the words of a sort question in the correct order, each word with
   * its own index, records exactly the canonical answer text.
   */
  lemma SortTextAgrees(q: Question, items: seq<SortItem>)
    requires q.Sort?
    requires forall it :: it in items ==> 0 <= it.index < |q.words| && it.word == q.words[it.index]
    requires PlacedIndices(items) == q.correctOrder
    ensures CorrectAnswerText(q) == Some(SortAnswerText(items))
  {
    var placed := seq(|items|, k requires 0 <= k < |items| => items[k].word);
    var canonical := seq(|q.correctOrder|, k requires 0 <= k < |q.correctOrder| => WordAt(q.words, q.correctOrder[k]));
    forall k | 0 <= k < |items|
      ensures placed[k] == canonical[k]
    {
      assert items[k] in items;
    }
    assert placed == canonical;
  }
}
