/**
 * The cyclic sequence counter of the chat server and `mesg_index`, which
 * tells a reader from which position of the message buffer it should
 * receive messages.
 *
 * A buffer window is described by the index `start` of its oldest entry and
 * its length `n`: its i-th entry carries index `IndexAt(start, i)`.  The
 * lemmas below say, for every cursor a reader can hold, which position
 * `MesgIndex` returns, including the two places where it does not return
 * "just after the cursor".
 */
module CyclicIndex {

  /** Period of the cyclic message index. */
  const MaxIndex: int := 100
  /** Number of messages the queue retains. */
  const MaxLen: int := 10

  /** Index carried by the entry `i` places after an entry with index `start`. */
  function IndexAt(start: int, i: int): int {
    (start + i) % MaxIndex
  }

  /** A position in a buffer window of `n` entries whose oldest has index `start`. */
  predicate InWindow(start: int, n: int, c: int) {
    exists i :: 0 <= i < n && IndexAt(start, i) == c
  }

  /**
   * Offset into the queue from which a reader whose last-read index is
   * `last` should receive messages, when the oldest queued message has index
   * `oldest` and the newest has index `newest`.  For any oldest index and
   * any cursor from -1 up, the offset is never negative, so the reader's
   * slice never counts from the end of the queue.
   */
  function MesgIndex(oldest: int, last: int, newest: int): (r: int)
    ensures oldest < MaxIndex && -1 <= last ==> r >= 0
  {
    if newest >= oldest then
      // no roll-over inside the queue
      if last >= oldest && last < newest then last - oldest + 1 else 0
    else
      // the index rolled over to zero inside the queue
      if last >= oldest then last - oldest + 1
      else if last < newest then MaxIndex - oldest + last
      else 0
  }

  /** The index of the newest entry of a window, in closed form. */
  lemma NewestIndex(start: int, n: int)
    requires 0 <= start < MaxIndex && 1 <= n <= MaxLen
    ensures start + n - 1 < MaxIndex ==> IndexAt(start, n - 1) == start + n - 1
    ensures start + n - 1 >= MaxIndex ==> IndexAt(start, n - 1) == start + n - 1 - MaxIndex
    ensures 0 <= IndexAt(start, n - 1) < MaxIndex
  {
  }

  /**
   * A cursor that is the index of a window entry other than the newest: the
   * reader resumes just after it when the cursor lies before the roll-over
   * point (or there is none), but at the cursor itself when it lies after
   * the roll-over point, so that entry is delivered a second time.
   */
  lemma {:induction false} OffsetOfCursorInWindow(start: int, n: int, k: int)
    requires 0 <= start < MaxIndex && 1 <= n <= MaxLen && 0 <= k < n - 1
    ensures MesgIndex(start, IndexAt(start, k), IndexAt(start, n - 1))
            == if start + k < MaxIndex then k + 1 else k
  {
    NewestIndex(start, n);
    if start + k < MaxIndex {
      assert IndexAt(start, k) == start + k;
    } else {
      assert IndexAt(start, k) == start + k - MaxIndex;
    }
  }

  /**
   * A cursor that is not the index of any window entry (the sentinel -1, or
   * a cursor the window has moved past): the reader receives the whole
   * window, except for the sentinel once the window has rolled over, which
   * starts it at the entry with index MaxIndex - 1 and so skips the entries
   * before it.
   */
  lemma {:induction false} OffsetOfCursorOutsideWindow(start: int, n: int, c: int)
    requires 0 <= start < MaxIndex && 1 <= n <= MaxLen && -1 <= c < MaxIndex
    requires !InWindow(start, n, c)
    ensures MesgIndex(start, c, IndexAt(start, n - 1))
            == if c == -1 && start + n - 1 >= MaxIndex then MaxIndex - 1 - start else 0
    ensures c == -1 && start + n - 1 >= MaxIndex ==>
            0 <= MaxIndex - 1 - start < n - 1 && IndexAt(start, MaxIndex - 1 - start) == MaxIndex - 1
  {
    NewestIndex(start, n);
    WindowCovers(start, n, c);
    if c == -1 && start + n - 1 >= MaxIndex {
      WindowCovers(start, n, MaxIndex - 1);
    }
  }

  /** Which indices a window holds, stated by ranges on both sides of the roll-over. */
  lemma {:induction false} WindowCovers(start: int, n: int, c: int)
    requires 0 <= start < MaxIndex && 1 <= n <= MaxLen
    ensures start + n - 1 < MaxIndex && start <= c <= start + n - 1 ==>
            IndexAt(start, c - start) == c && InWindow(start, n, c)
    ensures start + n - 1 >= MaxIndex && start <= c < MaxIndex ==>
            IndexAt(start, c - start) == c && InWindow(start, n, c)
    ensures start + n - 1 >= MaxIndex && 0 <= c <= start + n - 1 - MaxIndex ==>
            IndexAt(start, c + MaxIndex - start) == c && InWindow(start, n, c)
  {
    if start <= c <= start + n - 1 && c < MaxIndex {
      assert IndexAt(start, c - start) == c;
    }
    if start + n - 1 >= MaxIndex && 0 <= c <= start + n - 1 - MaxIndex {
      assert IndexAt(start, c + MaxIndex - start) == c;
    }
  }

  /**
   * Whenever the cursor is not the newest index, the offset lies inside the
   * window, so the slice the reader returns is never empty.
   */
  lemma {:induction false} OffsetInBounds(start: int, n: int, c: int)
    requires 0 <= start < MaxIndex && 1 <= n <= MaxLen && -1 <= c < MaxIndex
    requires c != IndexAt(start, n - 1)
    ensures 0 <= MesgIndex(start, c, IndexAt(start, n - 1)) < n
  {
    NewestIndex(start, n);
  }
}
