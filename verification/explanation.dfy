/**
 * The cursor of the explanation carousel shown after a cleared quiz: an index
 * into the questions, moved by the previous/next buttons and the indicator
 * dots, clamped at both ends.
 */
module Explanation {

  /** A valid cursor: an index of a question, or 0 when there are no questions. */
  predicate InRange(cursor: int, count: int)
  {
    0 <= cursor && (cursor < count || cursor == 0)
  }

  /** prevExplanation: one step back unless at the start. */
  function Prev(cursor: int): (r: int)
    ensures r <= cursor && cursor - r <= 1
    ensures r == cursor <==> cursor <= 0
  {
    if cursor > 0 then cursor - 1 else cursor
  }

  /** nextExplanation: one step forward unless at the last question. */
  function Next(cursor: int, count: int): (r: int)
    ensures cursor <= r && r - cursor <= 1
    ensures r == cursor <==> cursor >= count - 1
  {
    if cursor < count - 1 then cursor + 1 else cursor
  }

  /** goToExplanation: jump to `target` when it is an index of a question, otherwise stay. */
  function GoTo(cursor: int, target: int, count: int): int
  {
    if target >= 0 && target < count then target else cursor
  }

  /** None of the three moves leaves the range, and none wraps around. */
  lemma MovesStayInRange(cursor: int, count: int, target: int)
    requires InRange(cursor, count)
    ensures InRange(Prev(cursor), count)
    ensures InRange(Next(cursor, count), count)
    ensures InRange(GoTo(cursor, target, count), count)
    ensures cursor == 0 ==> Prev(cursor) == 0
    ensures cursor == count - 1 ==> Next(cursor, count) == cursor
  {
  }

  /**
   * A dot jumps to its own card from anywhere, and the dot of the card left
   * behind jumps back; a target that is no card leaves the cursor where it is.
   */
  lemma GoToRoundTrip(cursor: int, target: int, count: int)
    requires InRange(cursor, count)
    ensures 0 <= target < count ==> GoTo(cursor, target, count) == target
    ensures 0 <= target < count ==> GoTo(GoTo(cursor, target, count), cursor, count) == cursor
    ensures !(0 <= target < count) ==> GoTo(cursor, target, count) == cursor
  {
  }

  /** Away from the ends, previous and next undo each other. */
  lemma PrevNextInverse(cursor: int, count: int)
    requires InRange(cursor, count)
    ensures cursor < count - 1 ==> Prev(Next(cursor, count)) == cursor
    ensures cursor > 0 ==> Next(Prev(cursor), count) == cursor
  {
  }

  /** The cursor after pressing next `k` times. */
  function NextTimes(cursor: int, count: int, k: nat): int
  {
    if k == 0 then cursor else Next(NextTimes(cursor, count, k - 1), count)
  }

  /** From the first explanation, k presses of next reach explanation min(k, count - 1), and stop there. */
  lemma {:induction false} NextTimesFromStart(count: int, k: nat)
    requires count >= 1
    ensures NextTimes(0, count, k) == if k < count - 1 then k else count - 1
  {
    if k > 0 {
      NextTimesFromStart(count, k - 1);
    }
  }
}
