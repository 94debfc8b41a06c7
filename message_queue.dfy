/**
 * The chat server's shared message queue (`MSGQueue`): a list of at most
 * MaxLen entries, each stamped with the next value of a cyclic counter of
 * period MaxIndex, from which every connection reads the entries it has not
 * yet sent to its client.
 *
 * Only the critical sections of `writer` and `reader` are modelled, as
 * atomic operations of a sequential object; the readers/writers locks
 * around them are not part of this model.
 */
module MessageQueue {
  import opened CyclicIndex
  import opened Wrappers

  /** Stands for the `time.localtime()` value stamped on each message. */
  type Time = int

  /** One queued message: its cyclic index, its time stamp and its text. */
  datatype Entry = Entry(index: int, stamp: Time, text: string)

  /** The last `n` elements of `s`, in their original order. */
  function LastN<T>(s: seq<T>, n: nat): (r: seq<T>)
    ensures |r| == if |s| <= n then |s| else n
    ensures |r| <= |s| && r == s[|s| - |r|..]
  {
    if |s| <= n then s else s[|s| - n..]
  }

  /**
   * Python's `s[i:]`: a negative `i` counts from the end, and an `i` past
   * either end is clipped to it.
   */
  function SliceFrom<T>(s: seq<T>, i: int): (r: seq<T>)
    ensures |r| <= |s| && r == s[|s| - |r|..]
    ensures 0 <= i <= |s| ==> r == s[i..]
    ensures i >= |s| ==> r == []
    ensures i < 0 ==> |r| == if -i >= |s| then |s| else -i
  {
    if i < 0 then (if -i >= |s| then s else s[|s| + i..])
    else if i >= |s| then []
    else s[i..]
  }

  lemma ModShift(a: int, i: int)
    ensures (a % MaxIndex + i) % MaxIndex == (a + i) % MaxIndex
  {
  }

  /** Writes numbered in order: the n-th entry of `log` carries index n mod MaxIndex. */
  ghost predicate Numbered(log: seq<Entry>) {
    forall i :: 0 <= i < |log| ==> log[i].index == i % MaxIndex
  }

  /**
   * One write on a valid state: the entry carrying the counter's value keeps
   * the log numbered, becomes the newest index (one past the previous newest,
   * cyclically), and the counter moves on to the number of writes.
   */
  lemma IndexedAppend(log: seq<Entry>, e: Entry)
    requires Numbered(log) && e.index == |log| % MaxIndex
    ensures Numbered(log + [e])
    ensures e.index == (|log + [e]| - 1) % MaxIndex
    ensures (e.index + 1) % MaxIndex == |log + [e]| % MaxIndex
    ensures var prev := if log == [] then -1 else (|log| - 1) % MaxIndex;
            e.index == if prev == MaxIndex - 1 then 0 else prev + 1
  {
    ModShift(|log|, 1);
    ModShift(|log| - 1, 1);
    assert forall i :: 0 <= i < |log| ==> (log + [e])[i] == log[i];
  }

  /**
   * Keeping only the last `n` entries after each append gives the same list
   * as keeping the last `n` of everything ever appended.
   */
  lemma {:induction false} LastNAppend<T>(s: seq<T>, x: T, n: nat)
    ensures LastN(LastN(s, n) + [x], n) == LastN(s + [x], n)
  {
    var t := LastN(s, n);
    if |s| > n && n > 0 {
      assert t + [x] == (s + [x])[|s| - n..];
      assert (t + [x])[1..] == (s + [x])[|s| + 1 - n..];
    }
  }

  /** A suffix of `s` that is cut down to `n` entries, or left whole when shorter, is its last `n`. */
  lemma TrimmedToLastN<T>(s: seq<T>, t: seq<T>, n: nat)
    requires |t| <= |s| && t == s[|s| - |t|..]
    requires |t| <= n && (|t| >= n || t == s)
    ensures t == LastN(s, n)
  {
  }

  /** Removes entries from the front of `s` while it holds more than `n` of them. */
  method DropOldest<T>(s: seq<T>, n: nat) returns (t: seq<T>)
    ensures t == LastN(s, n)
  {
    t := s;
    while |t| > n
      invariant |t| <= |s| && t == s[|s| - |t|..]
      invariant |t| >= n || t == s
      decreases |t|
    {
      t := t[1..];  // remove the oldest entry
    }
    TrimmedToLastN(s, t, n);
  }

  class MsgQueue {
    /** The queued entries, oldest first. */
    var msg: seq<Entry>
    /** Index of the newest entry; -1 before the first write. */
    var current: int
    /** The state of the `cycle(range(MaxIndex))` iterator: the value it yields next. */
    var cyclicCount: int
    /** Every entry ever written, oldest first. */
    ghost var log: seq<Entry>

    /**
     * The n-th write ever made carries index n mod MaxIndex, the queue holds
     * the last MaxLen of them, and `current` and the counter agree with the
     * number of writes.
     */
    ghost predicate Valid()
      reads this
    {
      && Numbered(log)
      && msg == LastN(log, MaxLen)
      && current == (if log == [] then -1 else (|log| - 1) % MaxIndex)
      && cyclicCount == |log| % MaxIndex
    }

    constructor ()
      ensures Valid()
      ensures msg == [] && current == -1 && log == []
    {
      msg := [];
      current := -1;
      cyclicCount := 0;
      log := [];
    }

    /**
     * The writer's critical section: take the next cyclic index, append the
     * entry, and drop entries from the front while the queue is too long.
     */
    method Writer(stamp: Time, data: string)
      requires Valid()
      modifies this
      ensures Valid()
      ensures current == if old(current) == MaxIndex - 1 then 0 else old(current) + 1
      ensures log == old(log) + [Entry(current, stamp, data)]
      ensures msg == LastN(old(msg) + [Entry(current, stamp, data)], MaxLen)
    {
      var e := Entry(cyclicCount, stamp, data);
      IndexedAppend(log, e);
      LastNAppend(log, e, MaxLen);
      current := cyclicCount;
      cyclicCount := (cyclicCount + 1) % MaxIndex;
      log := log + [e];
      msg := DropOldest(msg + [e], MaxLen);
    }

    /**
     * The reader's critical section: nothing new when the cursor is the
     * newest index; otherwise the tail of the queue from `MesgIndex`
     * onwards.  Whenever the cursor is a value the server hands out (-1 or
     * an index), that tail is non-empty and ends with the newest entry.
     */
    function Reader(lastread: int): (r: Option<seq<Entry>>)
      reads this
      requires Valid()
      requires lastread == current || msg != []
      ensures r.None? <==> lastread == current
      ensures r.Some? ==> |r.value| <= |msg| && r.value == msg[|msg| - |r.value|..]
      ensures r.Some? && -1 <= lastread < MaxIndex ==>
                r.value != [] && r.value[|r.value| - 1].index == current
    {
      if lastread == current then None
      else
        TailInBounds(this, lastread);
        Some(SliceFrom(msg, MesgIndex(msg[0].index, lastread, current)))
    }
  }

  /**
   * The queue's shape: at most MaxLen entries, empty exactly when `current`
   * is -1, the newest entry carries `current`, and the entries carry
   * consecutive indices modulo MaxIndex.
   */
  lemma QueueShape(q: MsgQueue)
    requires q.Valid()
    ensures |q.msg| <= MaxLen
    ensures q.msg == [] <==> q.current == -1
    ensures -1 <= q.current < MaxIndex
    ensures q.msg != [] ==> 0 <= q.msg[0].index < MaxIndex && q.msg[|q.msg| - 1].index == q.current
    ensures forall i :: 0 <= i < |q.msg| ==> q.msg[i].index == IndexAt(q.msg[0].index, i)
    ensures forall i :: 0 <= i < |q.msg| - 1 ==> q.msg[i + 1].index == (q.msg[i].index + 1) % MaxIndex
  {
    var b := |q.log| - |q.msg|;
    assert Numbered(q.log);
    assert q.msg == q.log[b..];
    if q.msg != [] {
      assert q.msg[0] == q.log[b];
      assert q.msg[0].index == b % MaxIndex;
      assert q.msg[|q.msg| - 1] == q.log[|q.log| - 1];
    }
    forall i | 0 <= i < |q.msg|
      ensures q.msg[i].index == IndexAt(q.msg[0].index, i)
    {
      assert q.msg[i] == q.log[b + i];
      assert q.msg[i].index == (b + i) % MaxIndex;
      ModShift(b, i);
    }
    forall i | 0 <= i < |q.msg| - 1
      ensures q.msg[i + 1].index == (q.msg[i].index + 1) % MaxIndex
    {
      assert q.msg[i] == q.log[b + i];
      assert q.msg[i + 1] == q.log[b + i + 1];
      ModShift(b + i, 1);
    }
  }

  /** Any cursor the server hands out, other than `current`, gives a position inside the queue. */
  lemma TailInBounds(q: MsgQueue, c: int)
    requires q.Valid() && q.msg != []
    ensures -1 <= c < MaxIndex && c != q.current ==>
              0 <= MesgIndex(q.msg[0].index, c, q.current) < |q.msg|
  {
    QueueShape(q);
    if -1 <= c < MaxIndex && c != q.current {
      OffsetInBounds(q.msg[0].index, |q.msg|, c);
    }
  }

  /**
   * A cursor that is the index of a queued entry other than the newest: the
   * reader receives exactly the entries after it when no roll-over to zero
   * lies between the oldest entry and the cursor, and otherwise the cursor's
   * own entry once more followed by those after it.
   */
  lemma ReaderResumes(q: MsgQueue, k: int)
    requires q.Valid()
    requires 0 <= k < |q.msg| - 1
    ensures q.Reader(q.msg[k].index)
            == Some(if q.msg[0].index <= q.msg[k].index then q.msg[k + 1..] else q.msg[k..])
  {
    QueueShape(q);
    var n := |q.msg|;
    var start := q.msg[0].index;
    OffsetOfCursorInWindow(start, n, k);
    assert q.msg[k].index != q.current;
    assert start + k < MaxIndex <==> start <= q.msg[k].index;
  }

  /**
   * A cursor that is not the index of any queued entry: the reader receives
   * the whole queue, except that the sentinel -1 on a queue whose indices
   * roll over to zero receives only the entries from index MaxIndex - 1
   * onwards, and so misses the ones before it.
   */
  lemma ReaderUnseenCursor(q: MsgQueue, c: int)
    requires q.Valid() && q.msg != []
    requires -1 <= c < MaxIndex
    requires forall i :: 0 <= i < |q.msg| ==> q.msg[i].index != c
    ensures var rolled := q.msg[|q.msg| - 1].index < q.msg[0].index;
            c == -1 && rolled ==>
              0 <= MaxIndex - 1 - q.msg[0].index < |q.msg| - 1 &&
              q.msg[MaxIndex - 1 - q.msg[0].index].index == MaxIndex - 1
    ensures var rolled := q.msg[|q.msg| - 1].index < q.msg[0].index;
            q.Reader(c) == Some(if c == -1 && rolled then q.msg[MaxIndex - 1 - q.msg[0].index..] else q.msg)
  {
    QueueShape(q);
    var n := |q.msg|;
    var start := q.msg[0].index;
    NewestIndex(start, n);
    assert !InWindow(start, n, c);
    OffsetOfCursorOutsideWindow(start, n, c);
  }

  /**
   * The sentinel -1 of a newly joined reader: the whole queue while its
   * indices have not rolled over to zero, and only the entries from index
   * MaxIndex - 1 onwards once they have.
   */
  lemma ReaderFresh(q: MsgQueue)
    requires q.Valid() && q.msg != []
    ensures var rolled := q.msg[|q.msg| - 1].index < q.msg[0].index;
            rolled ==> 0 <= MaxIndex - 1 - q.msg[0].index < |q.msg| - 1
    ensures var rolled := q.msg[|q.msg| - 1].index < q.msg[0].index;
            q.Reader(-1) == Some(if rolled then q.msg[MaxIndex - 1 - q.msg[0].index..] else q.msg)
  {
    QueueShape(q);
    ReaderUnseenCursor(q, -1);
  }

  /**
   * While no more than MaxLen messages have ever been written, the queue
   * holds all of them and a newly joined reader receives all of them.
   */
  lemma ReaderFreshShortHistory(q: MsgQueue)
    requires q.Valid() && 0 < |q.log| <= MaxLen
    ensures q.msg == q.log && q.Reader(-1) == Some(q.log)
  {
    var n := |q.log|;
    assert q.msg == q.log;
    assert q.log[0].index == 0;
    assert q.log[n - 1].index == n - 1 == q.current;
    assert MesgIndex(0, -1, n - 1) == 0;
  }

  /**
   * The concrete case of the sentinel's under-delivery: a full queue holding
   * indices 95..99, 0..4 hands a newly joined reader only 99, 0..4.
   */
  lemma SentinelAfterRollOver(q: MsgQueue)
    requires q.Valid() && |q.msg| == MaxLen && q.msg[0].index == 95
    ensures q.Reader(-1) == Some(q.msg[4..])
    ensures q.msg[4].index == 99 && q.current == 4
  {
    QueueShape(q);
    ReaderUnseenCursor(q, -1);
  }
}
