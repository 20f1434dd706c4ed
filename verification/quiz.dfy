/**
 * The quiz controller: one question at a time, answers validated and
 * recorded, the next question shown only after a correct answer, and the
 * lesson's completion flag written once the last question is cleared.
 * Rendering, animation and timers are not modelled; the step that follows a
 * correct answer (shown after an animation in the page) happens at once.
 */
module Quiz {
  import opened Optional
  import opened Questions
  import opened FlexibleOrder
  import opened Progress
  import opened Explanation

  /** An entry of `userAnswers`: the recorded text, the verdict and the question. */
  datatype AnswerRecord = AnswerRecord(userAnswer: string, isCorrect: bool, question: Question)

  /**
   * The answers of a session that has cleared the first `n` questions: each of
   * them has a correct record, the current question may have a wrong one, and
   * nothing beyond it is recorded.
   */
  predicate AnswersUpTo(answers: map<nat, AnswerRecord>, n: nat, questions: seq<Question>)
  {
    && (forall k: nat :: k < n ==> k in answers)
    && (forall k :: k in answers ==>
          && k <= n && k < |questions|
          && answers[k].question == questions[k]
          && (answers[k].isCorrect <==> k < n))
  }

  /** The question indices whose recorded answer is correct. */
  function CorrectKeys(answers: map<nat, AnswerRecord>): set<nat>
  {
    set k | k in answers && answers[k].isCorrect
  }

  /** The indices below `n`. */
  function Below(n: nat): (r: set<nat>)
    ensures forall k: nat :: k in r <==> k < n
    ensures |r| == n
  {
    if n == 0 then {} else Below(n - 1) + {n - 1}
  }

  /** After clearing `n` questions exactly `n` recorded answers are correct. */
  lemma CorrectKeysCount(answers: map<nat, AnswerRecord>, n: nat, questions: seq<Question>)
    requires AnswersUpTo(answers, n, questions)
    ensures |CorrectKeys(answers)| == n
  {
    assert CorrectKeys(answers) == Below(n);
  }

  /** The placed words carry pairwise different indices. */
  predicate DistinctIndices(items: seq<SortItem>)
  {
    forall i, j :: 0 <= i < j < |items| ==> items[i].index != items[j].index
  }

  /** The indices of the placed words. */
  function IndexSet(items: seq<SortItem>): set<int>
  {
    set it | it in items :: it.index
  }

  /** `currentSortAnswer.filter(item => item.index !== index)`. */
  function WithoutIndex(items: seq<SortItem>, index: int): (r: seq<SortItem>)
    ensures forall it :: it in r <==> it in items && it.index != index
  {
    if |items| == 0 then []
    else (if items[0].index == index then [] else [items[0]]) + WithoutIndex(items[1..], index)
  }

  /** A word's index differs from the indices of all words placed after it. */
  lemma DistinctTail(items: seq<SortItem>, it: SortItem)
    requires DistinctIndices(items) && |items| > 0 && it in items[1..]
    ensures it.index != items[0].index
  {
    var j :| 0 <= j < |items[1..]| && items[1..][j] == it;
    assert items[j + 1] == it;
  }

  /** Taking a word back out keeps the remaining indices distinct. */
  lemma {:induction false} WithoutIndexDistinct(items: seq<SortItem>, index: int)
    requires DistinctIndices(items)
    ensures DistinctIndices(WithoutIndex(items, index))
  {
    if |items| > 0 {
      var rest := WithoutIndex(items[1..], index);
      WithoutIndexDistinct(items[1..], index);
      if items[0].index != index {
        forall it | it in rest
          ensures it.index != items[0].index
        {
          DistinctTail(items, it);
        }
        ConsDistinct(items[0], rest);
      }
    }
  }

  /** A word whose index no later word shares can head a list with distinct indices. */
  lemma ConsDistinct(head: SortItem, rest: seq<SortItem>)
    requires DistinctIndices(rest)
    requires forall it :: it in rest ==> it.index != head.index
    ensures DistinctIndices([head] + rest)
  {
    var r := [head] + rest;
    forall i, j | 0 <= i < j < |r|
      ensures r[i].index != r[j].index
    {
      assert r[j] == rest[j - 1];
      if i == 0 {
        assert rest[j - 1] in rest;
      } else {
        assert r[i] == rest[i - 1];
      }
    }
  }

  /** Taking a word back out frees exactly its index. */
  lemma WithoutIndexSet(items: seq<SortItem>, index: int)
    ensures IndexSet(WithoutIndex(items, index)) == IndexSet(items) - {index}
  {
    var r := WithoutIndex(items, index);
    forall x | x in IndexSet(items) - {index}
      ensures x in IndexSet(r)
    {
      var it :| it in items && it.index == x;
      assert it in r;
    }
  }

  /** Removing an index that no placed word has leaves the buffer as it was. */
  lemma {:induction false} WithoutIndexAbsent(items: seq<SortItem>, index: int)
    requires index !in IndexSet(items)
    ensures WithoutIndex(items, index) == items
  {
    if |items| > 0 {
      assert items[0] in items;
      assert index !in IndexSet(items[1..]) by {
        forall it | it in items[1..]
          ensures it.index != index
        {
          assert it in items;
        }
      }
      WithoutIndexAbsent(items[1..], index);
      assert items == [items[0]] + items[1..];
    }
  }

  /**
   * Removing the index of the word at position k takes out that one word and
   * keeps all the others in their order.
   */
  lemma {:induction false} WithoutIndexRemovesOne(items: seq<SortItem>, index: int, k: nat)
    requires DistinctIndices(items) && k < |items| && items[k].index == index
    ensures WithoutIndex(items, index) == items[..k] + items[k + 1..]
  {
    var tail := items[1..];
    if k == 0 {
      assert index !in IndexSet(tail) by {
        forall it | it in tail
          ensures it.index != index
        {
          DistinctTail(items, it);
        }
      }
      WithoutIndexAbsent(tail, index);
      assert WithoutIndex(items, index) == WithoutIndex(tail, index);
      assert items[..0] + items[1..] == tail;
    } else {
      assert items[0].index != index;
      DistinctDrop(items);
      WithoutIndexRemovesOne(tail, index, k - 1);
      assert WithoutIndex(items, index) == [items[0]] + WithoutIndex(tail, index);
      ConsSplice(items, k);
    }
  }

  /** The words after the first of a buffer with distinct indices have distinct indices. */
  lemma DistinctDrop(items: seq<SortItem>)
    requires DistinctIndices(items) && |items| > 0
    ensures DistinctIndices(items[1..])
  {
    var tail := items[1..];
    forall i, j | 0 <= i < j < |tail|
      ensures tail[i].index != tail[j].index
    {
      assert tail[i] == items[i + 1] && tail[j] == items[j + 1];
    }
  }

  /** Cutting position k out of a list is keeping its head and cutting position k - 1 out of its tail. */
  lemma ConsSplice(items: seq<SortItem>, k: nat)
    requires 0 < k < |items|
    ensures items[..k] + items[k + 1..] == [items[0]] + (items[1..][..k - 1] + items[1..][k..])
  {
    assert items[1..][..k - 1] == items[1..k];
    assert items[1..][k..] == items[k + 1..];
    assert items[..k] == [items[0]] + items[1..k];
  }

  /** Placing a word with an unused index keeps the indices distinct. */
  lemma AppendFresh(items: seq<SortItem>, item: SortItem)
    requires DistinctIndices(items) && item.index !in IndexSet(items)
    ensures DistinctIndices(items + [item])
    ensures IndexSet(items + [item]) == IndexSet(items) + {item.index}
  {
    forall i | 0 <= i < |items|
      ensures items[i].index != item.index
    {
      assert items[i] in items;
    }
  }
  /**
   * The submitted order lists one index per placed word, repeats none, and
   * holds exactly the indices whose buttons are marked as used.
   */
  lemma PlacedIndicesUsed(items: seq<SortItem>)
    requires DistinctIndices(items)
    ensures |PlacedIndices(items)| == |items|
    ensures forall i, j :: 0 <= i < j < |PlacedIndices(items)| ==> PlacedIndices(items)[i] != PlacedIndices(items)[j]
    ensures (set x | x in PlacedIndices(items)) == IndexSet(items)
  {
    var r := PlacedIndices(items);
    forall x | x in IndexSet(items)
      ensures x in r
    {
      var it :| it in items && it.index == x;
      var k :| 0 <= k < |items| && items[k] == it;
      assert r[k] == x;
    }
  }


  class QuizManager {
    const lessonId: string
    const questions: seq<Question>
    /** The page's local storage, shared with the access gate. */
    const store: Storage

    var currentQuestionIndex: nat
    var userAnswers: map<nat, AnswerRecord>
    var correctCount: nat
    /** The words placed so far for the current sort question. */
    var currentSortAnswer: seq<SortItem>
    /** The indices of the word buttons marked 'used' on the current slide. */
    var usedWords: set<int>
    /** `None` until the result view first sets it. */
    var currentExplanationIndex: Option<int>

    /** The current slide is a sort question. */
    ghost predicate OnSortQuestion()
      reads this
    {
      currentQuestionIndex < |questions| && questions[currentQuestionIndex].Sort?
    }

    ghost predicate Valid()
      reads this, store
    {
      && currentQuestionIndex <= |questions|
      && correctCount == currentQuestionIndex
      && AnswersUpTo(userAnswers, currentQuestionIndex, questions)
      && (OnSortQuestion() ==> DistinctIndices(currentSortAnswer) && usedWords == IndexSet(currentSortAnswer))
      && (currentExplanationIndex.Some? ==> InRange(currentExplanationIndex.value, |questions|))
      && (0 < |questions| == currentQuestionIndex ==> store.GetItem(CompletionKey(lessonId)) == Some(COMPLETED))
    }

    constructor (lessonId: string, questions: seq<Question>, store: Storage)
      ensures Valid()
      ensures this.lessonId == lessonId && this.questions == questions && this.store == store
      ensures currentQuestionIndex == 0 && userAnswers == map[] && correctCount == 0
      ensures currentSortAnswer == [] && usedWords == {} && currentExplanationIndex == None
    {
      this.lessonId := lessonId;
      this.questions := questions;
      this.store := store;
      currentQuestionIndex := 0;
      userAnswers := map[];
      correctCount := 0;
      currentSortAnswer := [];
      usedWords := {};
      currentExplanationIndex := None;
    }

    /** The number of correct entries in `userAnswers` is `correctCount`. */
    lemma CorrectCountMatchesAnswers()
      requires Valid()
      ensures |CorrectKeys(userAnswers)| == correctCount
    {
      CorrectKeysCount(userAnswers, currentQuestionIndex, questions);
    }

    /** A cleared quiz has its lesson flag in storage. */
    lemma ClearedIsRecorded()
      requires Valid() && 0 < |questions| == currentQuestionIndex
      ensures CompletionKey(lessonId) in store.items && store.items[CompletionKey(lessonId)] == COMPLETED
    {
    }

    /**
     * What rendering slide `index` does to the model state: a fresh set of word
     * buttons (none used), an empty answer area for a sort question, and past
     * the last question the result view, which saves the progress and puts the
     * explanation cursor at 0.
     */
    twostate predicate Rendered(index: nat)
      reads this, store
    {
      && usedWords == {}
      && currentSortAnswer == (if index < |questions| && questions[index].Sort? then [] else old(currentSortAnswer))
      && if index < |questions| then
           store.items == old(store.items) && currentExplanationIndex == old(currentExplanationIndex)
         else
           store.items == old(store.items)[CompletionKey(lessonId) := COMPLETED] && currentExplanationIndex == Some(0)
    }

    /**
     * The effect of recording `text` with verdict `isCorrect` for the current
     * question: the record is stored at the current index; a correct answer
     * also counts and moves on to the next slide, a wrong one changes nothing else.
     */
    twostate predicate Answered(q: Question, text: string, isCorrect: bool)
      reads this, store
    {
      && userAnswers == old(userAnswers)[old(currentQuestionIndex) := AnswerRecord(text, isCorrect, q)]
      && if isCorrect then
           && correctCount == old(correctCount) + 1
           && currentQuestionIndex == old(currentQuestionIndex) + 1
           && Rendered(currentQuestionIndex)
         else
           && correctCount == old(correctCount)
           && currentQuestionIndex == old(currentQuestionIndex)
           && currentSortAnswer == old(currentSortAnswer) && usedWords == old(usedWords)
           && store.items == old(store.items) && currentExplanationIndex == old(currentExplanationIndex)
    }

    /** startQuiz: reset the session and show the first slide. */
    method StartQuiz()
      requires Valid()
      modifies this, store
      ensures Valid()
      ensures currentQuestionIndex == 0 && userAnswers == map[] && correctCount == 0
      ensures Rendered(0)
    {
      currentQuestionIndex := 0;
      userAnswers := map[];
      correctCount := 0;
      ShowQuestion(0);
    }

    /** The model state part of showQuestion: with no question left it shows the result. */
    method ShowQuestion(index: nat)
      modifies this, store
      ensures currentQuestionIndex == old(currentQuestionIndex)
      ensures userAnswers == old(userAnswers) && correctCount == old(correctCount)
      ensures Rendered(index)
    {
      usedWords := {};
      if index >= |questions| {
        ShowResult();
        return;
      }
      if questions[index].Sort? {
        currentSortAnswer := [];
      }
    }

    /** The model state part of showResult: save the progress and start the explanation cursor. */
    method ShowResult()
      modifies this, store
      ensures currentQuestionIndex == old(currentQuestionIndex)
      ensures userAnswers == old(userAnswers) && correctCount == old(correctCount)
      ensures Rendered(|questions|)
    {
      usedWords := {};
      SaveProgress();
      currentExplanationIndex := Some(0);
    }

    /** saveProgress: `lesson_completed_<lessonId>` := 'true'. */
    method SaveProgress()
      modifies store
      ensures store.items == old(store.items)[CompletionKey(lessonId) := COMPLETED]
    {
      var key := CompletionKey(lessonId);
      store.SetItem(key, COMPLETED);
    }

    /** The step after a correct answer: the next question, or the result after the last one. */
    method AnimateSuccess()
      modifies this, store
      ensures currentQuestionIndex == old(currentQuestionIndex) + 1
      ensures userAnswers == old(userAnswers) && correctCount == old(correctCount)
      ensures Rendered(currentQuestionIndex)
    {
      currentQuestionIndex := currentQuestionIndex + 1;
      if currentQuestionIndex < |questions| {
        ShowQuestion(currentQuestionIndex);
      } else {
        ShowResult();
      }
    }

    /** Store the answer for the current question; on a correct one count it and move on. */
    method RecordAnswer(q: Question, text: string, isCorrect: bool)
      requires Valid() && currentQuestionIndex < |questions| && q == questions[currentQuestionIndex]
      modifies this, store
      ensures Valid()
      ensures Answered(q, text, isCorrect)
    {
      userAnswers := userAnswers[currentQuestionIndex := AnswerRecord(text, isCorrect, q)];
      if isCorrect {
        correctCount := correctCount + 1;
        AnimateSuccess();
      }
    }

    /**
     * checkAnswer: a choice or true/false question is answered correctly exactly
     * when the selected index is `correct`; the recorded text is that choice, or
     * "" when there is none. Any other question type is left alone.
     */
    method CheckAnswer(selectedIndex: int)
      requires Valid() && currentQuestionIndex < |questions|
      modifies this, store
      ensures Valid()
      ensures var q := questions[old(currentQuestionIndex)];
        if q.Choice? then Answered(q, ChoiceAnswerText(q.choices, selectedIndex), selectedIndex == q.correct)
        else unchanged(this) && store.items == old(store.items)
    {
      var q := questions[currentQuestionIndex];
      if q.Choice? {
        var isCorrect := selectedIndex == q.correct;
        var userAnswerText := ChoiceAnswerText(q.choices, selectedIndex);
        RecordAnswer(q, userAnswerText, isCorrect);
      }
    }

    /**
     * checkSortAnswer: the placed indices must equal the correct order or, when
     * the question has flexible groups, one of the generated orders. A question
     * that is not a sort question has no correct order, so it is marked wrong.
     */
    method CheckSortAnswer()
      requires Valid() && currentQuestionIndex < |questions|
      modifies this, store
      ensures Valid()
      ensures var q := questions[old(currentQuestionIndex)];
        Answered(q, SortAnswerText(old(currentSortAnswer)),
                 q.Sort? && SortAnswerCorrect(PlacedIndices(old(currentSortAnswer)), q.correctOrder, q.flexibleOrder))
    {
      var q := questions[currentQuestionIndex];
      var currentOrder := PlacedIndices(currentSortAnswer);
      var userAnswerText := SortAnswerText(currentSortAnswer);
      var isCorrect := false;
      if q.Sort? {
        isCorrect := currentOrder == q.correctOrder;
        if !isCorrect && |q.flexibleOrder| > 0 {
          var validOrders := GenerateFlexibleOrders(q.correctOrder, q.flexibleOrder);
          isCorrect := currentOrder in validOrders;
        }
      }
      RecordAnswer(q, userAnswerText, isCorrect);
    }

    /** moveWord: place a word unless its button is already used. */
    method MoveWord(word: string, index: int)
      requires Valid()
      modifies this`currentSortAnswer, this`usedWords
      ensures Valid()
      ensures index in old(usedWords) ==> currentSortAnswer == old(currentSortAnswer) && usedWords == old(usedWords)
      ensures index !in old(usedWords) ==>
                currentSortAnswer == old(currentSortAnswer) + [SortItem(word, index)] && usedWords == old(usedWords) + {index}
    {
      if index in usedWords {
        return;
      }
      if OnSortQuestion() {
        AppendFresh(currentSortAnswer, SortItem(word, index));
      }
      usedWords := usedWords + {index};
      currentSortAnswer := currentSortAnswer + [SortItem(word, index)];
    }

    /** Clicking a placed word: free its button and drop it from the answer. */
    method RemoveWord(index: int)
      requires Valid()
      modifies this`currentSortAnswer, this`usedWords
      ensures Valid()
      ensures currentSortAnswer == WithoutIndex(old(currentSortAnswer), index)
      ensures usedWords == old(usedWords) - {index}
    {
      if OnSortQuestion() {
        WithoutIndexDistinct(currentSortAnswer, index);
        WithoutIndexSet(currentSortAnswer, index);
      }
      usedWords := usedWords - {index};
      currentSortAnswer := WithoutIndex(currentSortAnswer, index);
    }

    /** resetSort: clear the answer area and every button's 'used' mark. */
    method ResetSort()
      requires Valid()
      modifies this`currentSortAnswer, this`usedWords
      ensures Valid()
      ensures currentSortAnswer == [] && usedWords == {}
    {
      usedWords := {};
      currentSortAnswer := [];
    }

    /** prevExplanation; before the result view the cursor is undefined and the test fails. */
    method PrevExplanation()
      requires Valid()
      modifies this`currentExplanationIndex
      ensures Valid()
      ensures old(currentExplanationIndex).None? ==> currentExplanationIndex == None
      ensures old(currentExplanationIndex).Some? ==>
                currentExplanationIndex == Some(Prev(old(currentExplanationIndex).value))
    {
      if currentExplanationIndex.Some? && currentExplanationIndex.value > 0 {
        currentExplanationIndex := Some(currentExplanationIndex.value - 1);
      }
    }

    /** nextExplanation; before the result view the cursor is undefined and the test fails. */
    method NextExplanation()
      requires Valid()
      modifies this`currentExplanationIndex
      ensures Valid()
      ensures old(currentExplanationIndex).None? ==> currentExplanationIndex == None
      ensures old(currentExplanationIndex).Some? ==>
                currentExplanationIndex == Some(Next(old(currentExplanationIndex).value, |questions|))
    {
      if currentExplanationIndex.Some? && currentExplanationIndex.value < |questions| - 1 {
        currentExplanationIndex := Some(currentExplanationIndex.value + 1);
      }
    }

    /** goToExplanation: only the index of a question is accepted, whatever the cursor was. */
    method GoToExplanation(index: int)
      requires Valid()
      modifies this`currentExplanationIndex
      ensures Valid()
      ensures old(currentExplanationIndex).None? ==>
                currentExplanationIndex == if 0 <= index < |questions| then Some(index) else None
      ensures old(currentExplanationIndex).Some? ==>
                currentExplanationIndex == Some(GoTo(old(currentExplanationIndex).value, index, |questions|))
    {
      if index >= 0 && index < |questions| {
        currentExplanationIndex := Some(index);
      }
    }
  }

  /**
   * Example session: lesson "l0-1" with one choice question whose answer is
   * "B". A wrong pick changes neither the count nor the index; the right one
   * counts, clears the quiz and sets the lesson's flag.
   */
  method ChoiceQuestionExample()
  {
    var store := new Storage(map[]);
    var quiz := new QuizManager("l0-1", [Choice(MultipleChoice, ["A", "B", "C"], 1)], store);
    quiz.StartQuiz();
    quiz.CheckAnswer(0);
    assert quiz.correctCount == 0 && quiz.currentQuestionIndex == 0;
    assert quiz.userAnswers[0] == AnswerRecord("A", false, Choice(MultipleChoice, ["A", "B", "C"], 1));
    quiz.CheckAnswer(1);
    assert quiz.correctCount == 1 && quiz.currentQuestionIndex == 1;
    CompletionKeyExample();
    assert store.items["lesson_completed_l0-1"] == "true";
    assert quiz.currentExplanationIndex == Some(0);
  }
}
