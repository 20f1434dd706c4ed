# Lesson quiz controller

This project models `QuizManager`, the controller behind the end-of-lesson quiz of the ECG
English articles. A quiz is a list of questions. A multiple-choice or true/false question is
answered by picking an option. A sort question is answered by placing word buttons into an
answer area in order. Only a correct answer moves the learner on. After the last question
the controller records the lesson as completed in the browser's key-value store. It then
shows a slider of explanations with a cursor the learner can move.

Modules:

- `Optional` — an `Option` type.
- `Questions` — the question variants, the sort buffer's items, and the text of the correct
  answer shown on each explanation card.
- `FlexibleOrder` — generation of the accepted orders for a sort question. It is an
  imperative method (`GenerateFlexibleOrders`, with `ExpandOrders` and `PushPairSwaps` for
  its inner loops). The method is proved equal to a specification function, `ValidOrders`.
  Count, soundness and completeness are proved as lemmas about that function.
- `Progress` — the completion key and the key-value store, as a class over a `map`.
- `Explanation` — how the explanation cursor moves.
- `Quiz` — the `QuizManager` class. Its fields are updated in place by its methods. Its
  invariant `Valid` says:
  - the correct count equals the number of cleared (correctly answered) questions, which is the current index;
  - every question before the current one has a correct answer recorded;
  - while the current question is a sort question, the sort buffer holds distinct word indices, and these are exactly the buttons marked as used;
  - the completion flag is stored once every question of a non-empty quiz has been answered.

## Model

| member | source | states |
|---|---|---|
| Quiz.QuizManager.constructor | quiz.js:2-12 | The controller starts at question 0 with no answers, a zero count and no explanation cursor, and its invariant holds. |
| Quiz.QuizManager.StartQuiz | quiz.js:95-128 | Resets the index, the answers and the count, then presents question 0. With no questions, it goes straight to the result and stores the completion flag. |
| Quiz.QuizManager.ShowQuestion | quiz.js:130-193 | Presenting any slide clears every used mark, since it builds fresh word buttons. Presenting a sort question also empties the sort buffer; another question leaves the buffer as it was. Presenting an index at or past the end shows the result, which stores the completion flag and sets the explanation cursor to 0. Before the end, the store and the cursor are unchanged. The index, the answers and the count never change. |
| Quiz.QuizManager.ShowResult | quiz.js:401-486 | Stores `"true"` under the lesson's completion key. Sets the explanation cursor to 0. |
| Quiz.QuizManager.SaveProgress | quiz.js:710-716 | The store afterwards is the old store with the completion key mapped to `"true"`. |
| Quiz.QuizManager.AnimateSuccess | quiz.js:310-366 | Advances the index by one, then presents the next question or the result. Answers and count are unchanged. |
| Quiz.QuizManager.RecordAnswer | quiz.js:238-249 | Stores the answer record at the current index. A correct answer increments the count and advances. A wrong answer leaves everything else unchanged. |
| Quiz.QuizManager.CheckAnswer | quiz.js:287-308 | On a choice or true/false question, the answer is correct exactly when the selected index equals `correct`. The recorded text is the chosen option, or empty when the index is out of range. On any other question nothing changes. |
| Quiz.QuizManager.CheckSortAnswer | quiz.js:223-250 | The buffer's indices are judged correct exactly when they form one of `ValidOrders(correctOrder, flexibleOrder)`. The recorded text is the placed words joined by spaces. A non-sort question is judged wrong. |
| Quiz.QuizManager.MoveWord | quiz.js:196-215 | A word whose button is marked as used is ignored. Otherwise the item is appended to the buffer and its index is marked as used. While a sort question is shown, the buffer stays free of duplicate indices. |
| Quiz.QuizManager.RemoveWord | quiz.js:205-209 | Drops every buffer item with that index and unmarks the index. |
| Quiz.QuizManager.ResetSort | quiz.js:217-221 | Empties the buffer and clears every used mark. |
| Quiz.QuizManager.PrevExplanation | quiz.js:689-694 | The cursor moves one step back, but never below 0. A cursor that is not yet set stays unset. |
| Quiz.QuizManager.NextExplanation | quiz.js:696-701 | The cursor moves one step forward, but never past the last question. A cursor that is not yet set stays unset. |
| Quiz.QuizManager.GoToExplanation | quiz.js:703-708 | The cursor jumps to the index when it names a question. Otherwise it is left as it was. |
| Quiz.QuizManager.Valid | quiz.js:2-12 | The session invariant, with no contract of its own. The index is at most the number of questions, and the count equals the index. Every earlier question has a correct record. On a sort question the buffer's distinct indices are the used marks. A set cursor lies in range. A finished, non-empty quiz has its flag stored. |
| Quiz.QuizManager.CorrectCountMatchesAnswers | quiz.js:238-245 | In every valid state, the correct count equals the number of answer records marked correct. |
| Quiz.QuizManager.ClearedIsRecorded | quiz.js:360-365 | Once the index has passed the last question of a non-empty quiz, the store holds the completion flag. |
| Quiz.CorrectKeysCount | quiz.js:238-245 | When the records are exactly the correct answers to the first `n` questions, `n` of them are marked correct. |
| Quiz.WithoutIndex | quiz.js:208 | An item stays after filtering exactly when it was in the buffer and its index differs from the removed one. `WithoutIndexRemovesOne` and `WithoutIndexAbsent` give the order of what is kept. |
| Quiz.WithoutIndexRemovesOne | quiz.js:208 | In a buffer with distinct indices, removing the index of the word at position `k` takes out that word alone. The others keep their order. |
| Quiz.WithoutIndexAbsent | quiz.js:208 | Removing an index that no placed word has leaves the buffer unchanged. |
| Quiz.ConsDistinct | quiz.js:208 | Putting a word in front of a buffer with distinct indices keeps them distinct when no word in the buffer shares its index. |
| Quiz.WithoutIndexDistinct | quiz.js:208 | Filtering a buffer with distinct indices leaves a buffer with distinct indices. |
| Quiz.WithoutIndexSet | quiz.js:208 | After filtering, the buffer's index set is the old one minus the removed index. |
| Quiz.PlacedIndicesUsed | quiz.js:196-225 | With distinct indices in the buffer, the submitted order has one entry per placed word, repeats no index, and holds exactly the indices whose buttons are marked as used. |
| Quiz.AppendFresh | quiz.js:196-214 | Appending an item whose index is unused keeps the indices distinct and adds that index to the set. |
| Questions.PlacedIndices | quiz.js:225 | The submitted order, the word indices of the placed items. No contract of its own; `Quiz.PlacedIndicesUsed` states its properties. |
| Questions.CorrectAnswerText | quiz.js:488-495 | The text is missing exactly for a choice question whose `correct` is out of range. A question of another type gives its own `correctAnswer`. |
| Questions.ChoiceAnswerText | quiz.js:292 | The chosen option, or the empty text for an index with no option. No contract of its own; `ChoiceTextAgrees` ties it to the card's text. |
| Questions.SortAnswerText | quiz.js:226 | The placed words joined by single spaces. No contract of its own; `SortTextAgrees` ties it to the card's text. |
| Questions.Join | quiz.js:226 | `join`: the parts with the separator between neighbours, and the empty text for no parts. No contract of its own; used by `SortTextAgrees`. |
| Questions.WordAt | quiz.js:492 | A word as `join` renders it, with a missing word rendered as the empty text. No contract of its own; used by `SortTextAgrees`. |
| Questions.ChoiceTextAgrees | quiz.js:287-297 | Selecting the correct option of a well-formed choice question records the same text the explanation card shows. |
| Questions.SortTextAgrees | quiz.js:223-227 | Placing the words in `correctOrder` records the same text the explanation card shows. |
| Progress.CompletionKey | quiz.js:713 | The key `lesson_completed_<lessonId>`. No contract of its own; the three lemmas below state its properties. |
| Progress.CompletionKeyInjective | quiz.js:710-714 | Different lessons get different completion keys. |
| Progress.CompletionKeyNotAuthKey | quiz.js:710-714 | No completion key is the authentication flag's key, so saving progress never touches that flag. |
| Progress.CompletionKeyExample | quiz.js:711-713 | Lesson `l0-1` is stored under `lesson_completed_l0-1`. |
| Progress.Storage.SetItem | quiz.js:714 | Maps the key to the value and leaves every other key as it was. Reading the key back gives the value written; reads of every other key are unchanged. |
| Explanation.Prev | quiz.js:689-694 | Moves back by at most one. The cursor stays put exactly when it is already at 0. |
| Explanation.Next | quiz.js:696-701 | Moves forward by at most one. The cursor stays put exactly when it is already at the last card. |
| Explanation.GoTo | quiz.js:703-708 | The jump of an indicator dot. No contract of its own; `MovesStayInRange` and `GoToRoundTrip` state its properties. |
| Explanation.GoToRoundTrip | quiz.js:703-708 | An in-range target is reached from any cursor, and jumping back to the card left behind restores the cursor. An out-of-range target leaves the cursor unchanged. |
| Explanation.MovesStayInRange | quiz.js:689-708 | Starting from a position inside the slider, every move lands inside the slider. |
| Explanation.PrevNextInverse | quiz.js:689-701 | Away from the edges, a step forward and a step back cancel out. |
| Explanation.NextTimesFromStart | quiz.js:696-701 | Pressing "next" `k` times from the first card reaches card `min(k, count-1)`. |
| FlexibleOrder.FindIndex | quiz.js:262 | Returns the first position holding `x`, or -1 exactly when `x` is absent. |
| FlexibleOrder.Positions | quiz.js:261-263 | There are at most as many located positions as group members, and every one indexes into `correctOrder`. |
| FlexibleOrder.PositionsMembers | quiz.js:261-263 | Every located position holds a member of the group. |
| FlexibleOrder.PositionsComplete | quiz.js:261-263 | Every group member that occurs in `correctOrder` is located, at its first occurrence. |
| FlexibleOrder.Swap | quiz.js:273-276 | The copy of an order with two entries exchanged through a temporary. It keeps the order's length; `SwapAt`, `SwapPermutes` and `SwapSymmetric` give its contents. |
| FlexibleOrder.SwapAt | quiz.js:272-275 | The copy holds the entry from `p` at `q` and the entry from `q` at `p`. Every other entry is unchanged. |
| FlexibleOrder.SwapPermutes | quiz.js:272-275 | A swap preserves the multiset of entries. |
| FlexibleOrder.SwapSymmetric | quiz.js:272-275 | Swapping `p` with `q` equals swapping `q` with `p`. |
| FlexibleOrder.PairsClosedForm | quiz.js:270-271 | The number of pairs `i < j` among `k` positions is `k(k-1)/2`. |
| FlexibleOrder.RowSwaps | quiz.js:271-277 | The inner loop produces one order per later position. |
| FlexibleOrder.RowSwapsAt | quiz.js:271-277 | Its `t`-th order swaps positions `i` and `i+1+t`. |
| FlexibleOrder.PairSwaps | quiz.js:270-279 | The copies the two loops over `i < j` push for one order. No contract of its own; `PairSwapsCount`, `PairSwapsAt`, `PairSwapsSound` and `PairSwapsComplete` state its properties. |
| FlexibleOrder.PairSwapsCount | quiz.js:270-278 | The two nested loops produce one order per pair of positions, `k(k-1)/2` in all. |
| FlexibleOrder.PairSwapsAt | quiz.js:270-278 | Each copy they produce is the order with one pair `i < j` of located positions exchanged. |
| FlexibleOrder.PairSwapsSound | quiz.js:270-278 | Every produced order is the base order with one pair of group positions swapped. |
| FlexibleOrder.PairSwapsComplete | quiz.js:270-278 | Every pair of group positions yields a produced order. |
| FlexibleOrder.Variants | quiz.js:269-280 | The new orders one round collects from the current list. No contract of its own; `VariantsCount`, `VariantsAllLength`, `VariantsRearrange` and `VariantsComplete` state its properties. |
| FlexibleOrder.VariantsCount | quiz.js:268-279 | Every order gets `k(k-1)/2` variants. |
| FlexibleOrder.VariantsAllLength | quiz.js:268-279 | The variants all have the length of the orders they come from. |
| FlexibleOrder.AddGroup | quiz.js:258-281 | One round of the outer loop for one group. No contract of its own; `AddGroupExtends`, `AddGroupCount`, `AddGroupSkips`, `AddGroupGrowth` and `AddGroupSwaps` state its properties. |
| FlexibleOrder.AddGroupExtends | quiz.js:257-281 | A group keeps the existing orders as a prefix, and all the orders keep the length of `correctOrder`. |
| FlexibleOrder.AddGroupCount | quiz.js:257-281 | A group multiplies the number of orders by `1 + k(k-1)/2`, written as `GrowthFactor(k)`. |
| FlexibleOrder.ValidOrders | quiz.js:253-285 | The list is never empty, starts with `correctOrder`, and holds orders of its length only. |
| FlexibleOrder.ValidOrdersStep | quiz.js:256-281 | Each group turns the list built for the groups before it into `AddGroup` of that list. This is the loop's step. |
| FlexibleOrder.GenerateFlexibleOrders | quiz.js:253-285 | The loop returns exactly `ValidOrders(correctOrder, flexibleOrder)`. |
| FlexibleOrder.ExpandOrders | quiz.js:268-279 | The loop over the orders collected so far returns their variants in order. |
| FlexibleOrder.PushPairSwaps | quiz.js:270-278 | The `i`/`j` loops append exactly the pair swaps of one order. |
| FlexibleOrder.AddGroupSkips | quiz.js:258-265 | A group with fewer than two members, or fewer than two members found, leaves the list unchanged. |
| FlexibleOrder.AddGroupGrowth | quiz.js:257-281 | An effective group with `k` found positions multiplies the list's length by `1 + k(k-1)/2`. |
| FlexibleOrder.ValidOrdersCount | quiz.js:253-285 | The number of accepted orders is the product of the groups' growth factors. |
| FlexibleOrder.PairSwapsRearrange | quiz.js:270-278 | Swapping two located positions of a rearranged order gives a rearranged order, with the located positions added to those that may move. |
| FlexibleOrder.VariantsRearrange | quiz.js:268-279 | Every variant is a permutation of `correctOrder` that only moves group positions. |
| FlexibleOrder.ValidOrdersRearrange | quiz.js:253-285 | Every accepted order is a permutation of `correctOrder` that changes only positions found for some group. |
| FlexibleOrder.ValidOrdersPrefix | quiz.js:254-281 | The orders accepted for a prefix of the groups remain a prefix of the final list. |
| FlexibleOrder.VariantsComplete | quiz.js:268-279 | Each pair swap of each collected order appears among the variants. |
| FlexibleOrder.AddGroupSwaps | quiz.js:257-281 | Processing an effective group adds, for each existing order, the swap of any two of the group's located positions (the order itself when the two coincide). |
| FlexibleOrder.GroupSwapGenerated | quiz.js:253-285 | Swapping two found positions of any one group in `correctOrder` gives an accepted order. |
| FlexibleOrder.SortAnswerCorrect | quiz.js:229-235 | The quick equality test followed by the flexible search accepts exactly the members of `ValidOrders`. |
| FlexibleOrder.SortAnswerRearranges | quiz.js:229-235 | An accepted sort answer has the length of `correctOrder` and is a permutation of it. |
| FlexibleOrder.SortAnswerExact | quiz.js:229-232 | With no flexible groups, an answer is accepted exactly when it equals `correctOrder`. |
| FlexibleOrder.CorrectOrderAccepted | quiz.js:229 | The exact `correctOrder` is accepted, whatever the flexible groups. |
| FlexibleOrder.SortAnswerAcceptsGroupSwap | quiz.js:232-235 | An answer that swaps two words of one flexible group is accepted. |
| FlexibleOrder.ExactOrderExample | quiz.js:229-231 | With no flexible groups, `[0,1,2]` accepts itself and rejects the swap `[1,0,2]`. |
| FlexibleOrder.SwapMovesTwo | quiz.js:272-275 | A swap leaves every entry in place except the two exchanged, so of any three positions at least one keeps its entry. |
| FlexibleOrder.OneGroupMovesTwo | quiz.js:257-281 | With a single group, every accepted order differs from `correctOrder` in at most two positions. |
| FlexibleOrder.PairwiseSwapsMissRotation | quiz.js:266-281 | With the three-word group `[0,1,2]`, the rotation `[1,2,0]` is rejected, because it moves all three words. Only single swaps are generated, not every arrangement of the group. |

## Left out

- auth.js is not part of this model. Only its flag key is used, to show that completion keys never collide with it.
- DOM work is not modelled: building the modal, the slides, the explanation cards and the event listeners (`init`, `createModal`, `setupEventListeners`). Only the state these steps change is kept.
- Animations and timers are not modelled (`animateFailure`, `scrollToCenter`, the `setTimeout` delays). Presenting question 0 after the start and advancing after a correct answer happen at once. A wrong answer changes nothing beyond its record.
- Slider geometry, swipe, mouse and resize handling are not modelled (`initExplanationSlider`, `updateSliderPosition`). Only the cursor they move is kept.
- The early returns taken when a DOM element is missing are not modelled. The container, the modal and the current slide are taken to exist.
- Console logging and the global `quizManager` binding are left out, because they have no effect on state.
- Question prompts and explanation texts are only displayed, so they are left out.
- Quiz.QuizManager.MoveWord, Quiz.QuizManager.RemoveWord, Quiz.QuizManager.ResetSort: off a sort slide the model applies them as plain updates of the buffer and the used marks. In the source, `moveWord` and `resetSort` throw there before changing anything, because the answer area does not exist (quiz.js:211, quiz.js:218). Removing a word cannot happen there, because no placed word is shown. The interface offers none of the three off a sort slide.
- Quiz.QuizManager.MoveWord: the word arrives as a parameter. Its escaping into an inline `onclick` attribute is not modelled.
- Quiz.QuizManager.CheckSortAnswer: the `JSON.stringify` comparison is modelled as equality of integer sequences. Indices that are not integers are not modelled.
- Quiz.QuizManager.CheckAnswer: the strict `===` test is modelled as integer equality. A `correct` value outside the options still makes that index "correct", as the code does.
- Quiz.QuizManager.constructor: the sort buffer starts as an empty list. In the source it is undefined until the first sort question is presented, and it is only read from a sort question.
- The buffer's used marks are modelled as a set of word indices. The source keeps them as a CSS class on each word button.
- The local store is modelled as a `map` held by the controller. Other pages and tabs that share it are not modelled.
- The model answers only the current question. Questions out of sequence are not reachable through the interface.
