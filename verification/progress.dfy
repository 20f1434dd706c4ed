/**
 * The browser's origin-scoped key/value store and the per-lesson completion
 * flag the quiz writes into it.
 */
module Progress {
  import opened Optional

  /** Prefix of the completion keys: `lesson_completed_<lessonId>`. */
  const COMPLETED_PREFIX: string := "lesson_completed_"

  /** The key of the access gate's own flag in the same store. */
  const AUTH_KEY: string := "ecg_auth_success"

  /** The value written for a completed lesson. */
  const COMPLETED: string := "true"

  function CompletionKey(lessonId: string): string
  {
    COMPLETED_PREFIX + lessonId
  }

  /** Different lessons never share a completion flag. */
  lemma CompletionKeyInjective(a: string, b: string)
    ensures CompletionKey(a) == CompletionKey(b) ==> a == b
  {
    if CompletionKey(a) == CompletionKey(b) {
      assert a == CompletionKey(a)[|COMPLETED_PREFIX|..];
      assert b == CompletionKey(b)[|COMPLETED_PREFIX|..];
    }
  }

  /** A completion flag never overwrites the access gate's flag. */
  lemma CompletionKeyNotAuthKey(lessonId: string)
    ensures CompletionKey(lessonId) != AUTH_KEY
  {
    assert CompletionKey(lessonId)[0] == 'l';
    assert AUTH_KEY[0] == 'e';
  }

  /** Example: lesson "l0-1" is recorded under "lesson_completed_l0-1". */
  lemma CompletionKeyExample()
    ensures CompletionKey("l0-1") == "lesson_completed_l0-1"
  {
  }

  /** `localStorage`: string keys to string values. */
  class Storage {
    var items: map<string, string>

    constructor (items: map<string, string>)
      ensures this.items == items
    {
      this.items := items;
    }

    /** `getItem`: `None` (null) for a missing key. */
    function GetItem(key: string): Option<string>
      reads this
    {
      if key in items then Some(items[key]) else None
    }

    /** `setItem`: add or overwrite one key. */
    method SetItem(key: string, value: string)
      modifies this
      ensures items == old(items)[key := value]
      ensures GetItem(key) == Some(value)
      ensures forall k :: k != key ==> GetItem(k) == old(GetItem(k))
    {
      items := items[key := value];
    }
  }
}
