/**
 * One client connection of the chat server (`handlechild`, `sendAll`,
 * `clientExit`), with the socket calls taken out.
 *
 * What the client sends is a sequence of receive events; what the session
 * writes to the shared queue is given by the pure functions `Dispatch`
 * (one received text) and `Run` (a whole sequence of events), and
 * `HandleChild` is proved to write exactly that.
 */
module ChatSession {
  import opened Wrappers
  import opened PyStr
  import opened CyclicIndex
  import opened MessageQueue

  const Nick: string := "/nick"
  const Quit: string := "/quit"
  const CrLf: string := "\r\n"

  predicate EndsWithCrLf(s: string) {
    |s| >= 2 && s[|s| - 2..] == CrLf
  }

  /** The announcement written when a connection is accepted. */
  function JoinText(peer: string): (r: string)
    ensures StartsWith(r, peer) && EndsWithCrLf(r)
  {
    peer + " has joined\r\n"
  }

  /**
   * `clientExit`'s announcement: the error text is appended only when there
   * is one and it is not empty (Python treats "" as false).
   */
  function ExitText(peer: string, error: Option<string>): (r: string)
    ensures StartsWith(r, peer) && EndsWithCrLf(r)
    ensures |r| > |peer + " has exited\r\n"| <==> error.Some? && error.value != []
  {
    if error.Some? && error.value != [] then peer + " has exited -- " + error.value + "\r\n"
    else peer + " has exited\r\n"
  }

  /**
   * The argument of a command: the text with the first occurrence of the
   * command word removed, then stripped; for a text that starts with the
   * command word, that is what follows the word, stripped.
   */
  function Argument(data: string, command: string): (r: string)
    ensures StartsWith(data, command) ==> r == Strip(data[|command|..])
  {
    if StartsWith(data, command) then
      ReplacePrefix(data, command);
      Strip(ReplaceOnce(data, command, ""))
    else
      Strip(ReplaceOnce(data, command, ""))
  }

  /** The announcement of a rename. */
  function RenameText(peer: string, name: string): (r: string)
    ensures StartsWith(r, peer) && EndsWithCrLf(r)
  {
    peer + " now goes by " + name + "\r\n"
  }

  /** The announcement of a `/quit`, with the reason only when there is one. */
  function LeaveText(peer: string, bye: string): (r: string)
    ensures StartsWith(r, peer) && EndsWithCrLf(r)
  {
    if |bye| > 0 then peer + " is leaving now -- " + bye + "\r\n"
    else peer + " is leaving now\r\n"
  }

  /** A chat message relayed with its sender's name. */
  function ChatText(peer: string, data: string): (r: string)
    ensures EndsWithCrLf(r)
  {
    "Message from " + peer + ":\r\n\t" + data + "\r\n"
  }

  /** The received text renames the peer: `/nick` followed by a name that is not blank. */
  predicate Renames(data: string) {
    StartsWith(data, Nick) && !AllSpace(data[|Nick|..])
  }

  /** What one received text does: the new peer name, the announcement, whether the session ends. */
  datatype Action = Action(peer: string, announce: Option<string>, ends: bool)

  /**
   * The command dispatch of `handlechild` on one received text `data`:
   * an empty text is a disconnect, `/nick` is tested before `/quit`, and
   * anything else is relayed as a chat message.
   */
  function Dispatch(peer: string, data: string): (a: Action)
    ensures a.ends ==> a.peer == peer
    ensures a.announce.None? ==> !a.ends && a.peer == peer
  {
    if |data| == 0 then
      // an orderly close by the client
      Action(peer, Some(ExitText(peer, None)), true)
    else if StartsWith(data, Nick) then
      var name := Argument(data, Nick);
      if |name| > 0 then Action(name, Some(RenameText(peer, name)), false)
      else Action(peer, None, false)
    else if StartsWith(data, Quit) then
      var bye := Argument(data, Quit);
      Action(peer, Some(LeaveText(peer, bye)), true)
    else
      Action(peer, Some(ChatText(peer, data)), false)
  }

  /**
   * What the dispatch decides: the session ends on an empty text and on
   * `/quit` (unless the text also starts with `/nick`), nothing is announced
   * only for a `/nick` without a name, a rename takes the stripped name,
   * each case announces its own text, and every announcement is one line.
   */
  lemma DispatchSpec(peer: string, data: string)
    ensures var a := Dispatch(peer, data);
            && (a.ends <==> data == [] || (!StartsWith(data, Nick) && StartsWith(data, Quit)))
            && (a.announce.None? <==> StartsWith(data, Nick) && !Renames(data))
            && (Renames(data) ==> a.peer == Strip(data[|Nick|..]) && a.peer != [] && Trimmed(a.peer))
            && (!Renames(data) ==> a.peer == peer)
            && (a.announce.Some? ==> EndsWithCrLf(a.announce.value))
    ensures var a := Dispatch(peer, data);
            && (data == [] ==> a.announce == Some(ExitText(peer, None)))
            && (Renames(data) ==> a.announce == Some(RenameText(peer, Strip(data[|Nick|..]))))
            && (!StartsWith(data, Nick) && StartsWith(data, Quit) ==>
                  a.announce == Some(LeaveText(peer, Strip(data[|Quit|..]))))
            && (data != [] && !StartsWith(data, Nick) && !StartsWith(data, Quit) ==>
                  a.announce == Some(ChatText(peer, data)))
  {
  }

  /**
   * `/nick` followed by any text that is not all whitespace (a name, a
   * trailing newline, surrounding blanks): the peer takes the stripped rest
   * as its name and the rename is announced under the old name.
   */
  lemma DispatchRename(peer: string, rest: string)
    requires !AllSpace(rest)
    ensures Dispatch(peer, Nick + rest) == Action(Strip(rest), Some(RenameText(peer, Strip(rest))), false)
  {
    var d := Nick + rest;
    assert d[..|Nick|] == Nick && d[|Nick|..] == rest;
  }

  /**
   * `/quit` followed by any text: the leave is announced with the stripped
   * rest as the reason (none when it is blank) and the session ends.
   */
  lemma DispatchLeave(peer: string, rest: string)
    ensures Dispatch(peer, Quit + rest) == Action(peer, Some(LeaveText(peer, Strip(rest))), true)
  {
    var d := Quit + rest;
    assert d[..|Quit|] == Quit && d[|Quit|..] == rest;
    QuitIsNotNick(d);
  }

  /** What a receive attempt on the connection yields. */
  datatype Event =
    | Received(data: string, at: Time)  // `recv` returned `data` (empty: the client closed) at time `at`
    | TimedOut                          // `recv` raised `socket.timeout`
    | SocketError                       // `recv` raised another `socket.error`: the session returns silently
    | RecvFailed(at: Time)              // `recv` raised any other exception: the exit is announced

  /** A text written to the queue with its time stamp. */
  datatype Post = Post(at: Time, text: string)

  /** The posts made, the peer name reached, and whether the session has ended. */
  datatype Outcome = Outcome(posts: seq<Post>, peer: string, ends: bool)

  /**
   * The effect of one receive event: a timeout is ignored, a socket error
   * ends the session silently, any other failure ends it with an exit
   * announcement, and a received text is dispatched.
   */
  function Step(peer: string, ev: Event): (o: Outcome)
    ensures |o.posts| <= 1
  {
    match ev
    case TimedOut => Outcome([], peer, false)
    case SocketError => Outcome([], peer, true)
    case RecvFailed(at) => Outcome([Post(at, ExitText(peer, None))], peer, true)
    case Received(data, at) =>
      var a := Dispatch(peer, data);
      Outcome(if a.announce.Some? then [Post(at, a.announce.value)] else [], a.peer, a.ends)
  }

  /** `o` followed by `next`. */
  function Then(o: Outcome, next: Outcome): Outcome {
    Outcome(o.posts + next.posts, next.peer, next.ends)
  }

  /** The effect of a sequence of receive events: they are handled in order until one ends the session. */
  function Run(peer: string, events: seq<Event>): (o: Outcome)
    ensures |o.posts| <= |events|
    decreases |events|
  {
    if events == [] then Outcome([], peer, false)
    else
      var s := Step(peer, events[0]);
      if s.ends then s else Then(s, Run(s.peer, events[1..]))
  }

  /**
   * Running two stretches of events is running the first and, unless it
   * ended the session, then the second from the name the first reached;
   * in particular nothing after the end of a session has any effect.
   */
  lemma {:induction false} RunAppend(peer: string, a: seq<Event>, b: seq<Event>)
    ensures Run(peer, a + b) == (var r := Run(peer, a); if r.ends then r else Then(r, Run(r.peer, b)))
    decreases |a|
  {
    if a == [] {
      assert a + b == b;
      assert Run(peer, b).posts == [] + Run(peer, b).posts;
    } else {
      var s := Step(peer, a[0]);
      assert (a + b)[0] == a[0];
      assert (a + b)[1..] == a[1..] + b;
      if !s.ends {
        RunAppend(s.peer, a[1..], b);
        var r1 := Run(s.peer, a[1..]);
        if !r1.ends {
          assert (s.posts + r1.posts) + Run(r1.peer, b).posts == s.posts + (r1.posts + Run(r1.peer, b).posts);
        }
      }
    }
  }

  /** A single event's effect, as `Run` sees it. */
  lemma RunOne(peer: string, ev: Event)
    ensures Run(peer, [ev]) == Step(peer, ev)
  {
    var s := Step(peer, ev);
    if !s.ends {
      assert [ev][1..] == [];
      assert s.posts + [] == s.posts;
    }
  }

  /** A command word, a space and a trimmed argument: the argument is recovered. */
  lemma CommandArgument(command: string, arg: string)
    requires Trimmed(arg)
    ensures StartsWith(command + " " + arg, command)
    ensures Argument(command + " " + arg, command) == arg
  {
    var d := command + " " + arg;
    assert d[..|command|] == command;
    assert d[|command|..] == " " + arg + "";
    StripPadded(" ", arg, "");
  }

  /** `/nick <name>` renames the peer and announces the new name. */
  lemma DispatchNick(peer: string, name: string)
    requires name != [] && Trimmed(name)
    ensures Dispatch(peer, Nick + " " + name)
            == Action(name, Some(RenameText(peer, name)), false)
  {
    CommandArgument(Nick, name);
  }

  /** `/quit <reason>` announces the leave with the reason and ends the session. */
  lemma DispatchQuit(peer: string, reason: string)
    requires reason != [] && Trimmed(reason)
    ensures Dispatch(peer, Quit + " " + reason)
            == Action(peer, Some(LeaveText(peer, reason)), true)
  {
    var d := Quit + " " + reason;
    CommandArgument(Quit, reason);
    QuitIsNotNick(d);
    var a := Dispatch(peer, d);
    assert a.ends && a.peer == peer;
    assert a.announce == Some(LeaveText(peer, reason));
  }

  /** An empty receive is the client closing: it is announced as an exit and ends the session. */
  lemma DispatchEmpty(peer: string)
    ensures Dispatch(peer, []) == Action(peer, Some(ExitText(peer, None)), true)
  {
  }

  /** `/nick` followed by nothing but whitespace keeps the name and announces nothing. */
  lemma DispatchBlankNick(peer: string, rest: string)
    requires AllSpace(rest)
    ensures Dispatch(peer, Nick + rest) == Action(peer, None, false)
  {
    var d := Nick + rest;
    assert d[..|Nick|] == Nick && d[|Nick|..] == rest;
    assert Argument(d, Nick) == [];
  }

  /** `/quit` followed by nothing but whitespace announces the leave without a reason. */
  lemma DispatchBareQuit(peer: string, rest: string)
    requires AllSpace(rest)
    ensures Dispatch(peer, Quit + rest) == Action(peer, Some(LeaveText(peer, [])), true)
  {
    var d := Quit + rest;
    assert d[..|Quit|] == Quit && d[|Quit|..] == rest;
    QuitIsNotNick(d);
    assert Argument(d, Quit) == [];
  }

  /** Any other text is relayed as a chat message and the session goes on. */
  lemma DispatchChat(peer: string, data: string)
    requires data != [] && !StartsWith(data, Nick) && !StartsWith(data, Quit)
    ensures Dispatch(peer, data) == Action(peer, Some(ChatText(peer, data)), false)
  {
  }

  /** A text starting with `/quit` does not start with `/nick`. */
  lemma QuitIsNotNick(d: string)
    requires StartsWith(d, Quit)
    ensures !StartsWith(d, Nick)
  {
    assert d[1] == Quit[1] != Nick[1];
  }

  /** Two events: the second is handled unless the first ended the session. */
  lemma RunTwo(peer: string, e1: Event, e2: Event)
    ensures Run(peer, [e1, e2])
            == (var s := Step(peer, e1); if s.ends then s else Then(s, Step(s.peer, e2)))
  {
    assert [e1] + [e2] == [e1, e2];
    RunAppend(peer, [e1], [e2]);
    RunOne(peer, e1);
    RunOne(Step(peer, e1).peer, e2);
  }

  /** The step of a `/nick <name>` receive. */
  lemma StepNick(peer: string, name: string, t: Time)
    requires name != [] && Trimmed(name)
    ensures Step(peer, Received(Nick + " " + name, t)) == Outcome([Post(t, RenameText(peer, name))], name, false)
  {
    DispatchNick(peer, name);
  }

  /** The step of a `/quit <reason>` receive. */
  lemma StepQuit(peer: string, reason: string, t: Time)
    requires reason != [] && Trimmed(reason)
    ensures Step(peer, Received(Quit + " " + reason, t)) == Outcome([Post(t, LeaveText(peer, reason))], peer, true)
  {
    DispatchQuit(peer, reason);
  }

  /**
   * `/nick <name>` followed by `/quit <reason>`: the queue receives the
   * rename announcement and then the leaving announcement under the new
   * name, and the session ends.
   */
  lemma RenameThenQuit(peer: string, name: string, reason: string, t1: Time, t2: Time)
    requires name != [] && Trimmed(name) && reason != [] && Trimmed(reason)
    ensures Run(peer, [Received(Nick + " " + name, t1), Received(Quit + " " + reason, t2)])
            == Outcome([Post(t1, RenameText(peer, name)), Post(t2, LeaveText(name, reason))], name, true)
  {
    var e1, e2 := Received(Nick + " " + name, t1), Received(Quit + " " + reason, t2);
    StepNick(peer, name, t1);
    StepQuit(name, reason, t2);
    RunTwo(peer, e1, e2);
  }

  /** Every post a session makes is one line, ending with CR LF. */
  lemma {:induction false} PostsEndWithCrLf(peer: string, events: seq<Event>)
    ensures forall p :: p in Run(peer, events).posts ==> EndsWithCrLf(p.text)
    decreases |events|
  {
    if events != [] {
      var s := Step(peer, events[0]);
      if !s.ends {
        PostsEndWithCrLf(s.peer, events[1..]);
      }
    }
  }

  /** The time stamps and texts of queue entries. */
  function Posts(es: seq<Entry>): (ps: seq<Post>)
    ensures |ps| == |es|
  {
    if es == [] then [] else Posts(es[..|es| - 1]) + [Post(es[|es| - 1].stamp, es[|es| - 1].text)]
  }

  /** Writing one text adds its post to the queue's history. */
  method Write(q: MsgQueue, at: Time, text: string)
    requires q.Valid()
    modifies q
    ensures q.Valid() && q.msg != []
    ensures Posts(q.log) == Posts(old(q.log)) + [Post(at, text)]
  {
    q.Writer(at, text);
    assert q.log[..|q.log| - 1] == old(q.log);
    QueueShape(q);
  }

  /**
   * `sendAll`: send every entry the reader returns (the sending itself is
   * I/O and is only recorded in `sent`), and hand back the new cursor.  The
   * new cursor is always the newest index, so a second call with no write
   * in between finds nothing new.
   */
  method SendAll(q: MsgQueue, lastread: int) returns (cursor: int, sent: seq<Entry>)
    requires q.Valid()
    requires -1 <= lastread < MaxIndex
    requires lastread == q.current || q.msg != []
    ensures cursor == q.current
    ensures q.Reader(cursor).None?
    ensures sent == q.Reader(lastread).GetOr([])
    ensures lastread != q.current ==> sent != [] && sent[|sent| - 1].index == cursor
  {
    var reading := q.Reader(lastread);
    if reading.None? {
      return lastread, [];
    }
    var es := reading.value;
    assert es != [] && es[|es| - 1].index == q.current;
    cursor, sent := SendEach(lastread, es);
  }

  /** The loop of `sendAll`: send the entries in order, remembering the index of each. */
  method SendEach(lastread: int, es: seq<Entry>) returns (last: int, sent: seq<Entry>)
    ensures sent == es
    ensures last == if es == [] then lastread else es[|es| - 1].index
  {
    last := lastread;
    sent := [];
    for i := 0 to |es|
      invariant sent == es[..i]
      invariant last == if i == 0 then lastread else es[i - 1].index
    {
      var e := es[i];
      last := e.index;
      sent := sent + [e];  // the client receives "At <asctime(e.stamp)> -- <e.text>"
    }
    assert sent == es;
  }

  /**
   * One pass of `handlechild`'s loop after the client has been brought up to
   * date: handle what the receive attempt yielded.
   */
  method HandleEvent(q: MsgQueue, peer: string, ev: Event) returns (peer': string, ended: bool)
    requires q.Valid() && q.msg != []
    modifies q
    ensures q.Valid() && q.msg != []
    ensures Posts(q.log) == Posts(old(q.log)) + Step(peer, ev).posts
    ensures peer' == Step(peer, ev).peer && ended == Step(peer, ev).ends
  {
    var o := Step(peer, ev);
    if o.posts != [] {
      Write(q, o.posts[0].at, o.posts[0].text);
      assert o.posts == [o.posts[0]];
    }
    peer', ended := o.peer, o.ends;
  }

  /**
   * One pass of `handlechild`'s loop: bring the client up to date from
   * cursor `lastread`, then handle the receive event.
   */
  method Serve(q: MsgQueue, lastread: int, peer: string, ev: Event) returns (cursor: int, peer': string, ended: bool)
    requires q.Valid() && q.msg != [] && -1 <= lastread < MaxIndex
    modifies q
    ensures q.Valid() && q.msg != [] && -1 <= cursor < MaxIndex
    ensures Posts(q.log) == Posts(old(q.log)) + Step(peer, ev).posts
    ensures peer' == Step(peer, ev).peer && ended == Step(peer, ev).ends
  {
    var sent;
    cursor, sent := SendAll(q, lastread);
    QueueShape(q);
    peer', ended := HandleEvent(q, peer, ev);
  }

  /** Extending a stretch of events by one more. */
  lemma RunSnoc(peer: string, events: seq<Event>, i: int)
    requires 0 <= i < |events|
    ensures Run(peer, events[..i + 1])
            == (var r := Run(peer, events[..i]); if r.ends then r else Then(r, Step(r.peer, events[i])))
  {
    assert events[..i + 1] == events[..i] + [events[i]];
    RunAppend(peer, events[..i], [events[i]]);
    RunOne(Run(peer, events[..i]).peer, events[i]);
  }

  /** A session that stopped after `i` events has had the effect of all of them. */
  lemma RunStopped(peer: string, events: seq<Event>, i: int)
    requires 0 <= i <= |events|
    requires i == |events| || Run(peer, events[..i]).ends
    ensures Run(peer, events) == Run(peer, events[..i])
  {
    if i < |events| {
      SplitAt(events, i);
      RunEnded(peer, events[..i], events[i..]);
    } else {
      assert events[..i] == events;
    }
  }

  /** A sequence is its prefix followed by the rest. */
  lemma SplitAt<T>(s: seq<T>, i: int)
    requires 0 <= i <= |s|
    ensures s[..i] + s[i..] == s
  {
  }

  /** Nothing after the end of a session has any effect. */
  lemma RunEnded(peer: string, a: seq<Event>, b: seq<Event>)
    requires Run(peer, a).ends
    ensures Run(peer, a + b) == Run(peer, a)
  {
    RunAppend(peer, a, b);
  }

  /**
   * `handlechild` for a connection whose peer is first known as `peer0`:
   * announce the join, then, for each receive event in turn until one ends
   * the session, bring the client up to date and handle the event.  The
   * queue's history grows by the join announcement followed by exactly the
   * posts `Run` gives, and the session ends as `Run` says.
   */
  method HandleChild(q: MsgQueue, peer0: string, joinedAt: Time, events: seq<Event>)
    returns (peer: string, ended: bool)
    requires q.Valid()
    modifies q
    ensures q.Valid()
    ensures Posts(q.log) == Posts(old(q.log)) + [Post(joinedAt, JoinText(peer0))] + Run(peer0, events).posts
    ensures peer == Run(peer0, events).peer && ended == Run(peer0, events).ends
  {
    var lastread := -1;  // the first read returns everything queued
    peer := peer0;
    Write(q, joinedAt, JoinText(peer));
    ended := false;
    var i := 0;
    ghost var history := Posts(q.log);
    ghost var done: seq<Post> := [];
    while i < |events| && !ended
      invariant 0 <= i <= |events|
      invariant q.Valid() && q.msg != []
      invariant -1 <= lastread < MaxIndex
      invariant Run(peer0, events[..i]) == Outcome(done, peer, ended)
      invariant Posts(q.log) == history + done
      decreases |events| - i
    {
      RunSnoc(peer0, events, i);
      ghost var step := Step(peer, events[i]);
      lastread, peer, ended := Serve(q, lastread, peer, events[i]);
      assert (history + done) + step.posts == history + (done + step.posts);
      done := done + step.posts;
      i := i + 1;
    }
    RunStopped(peer0, events, i);
  }

  /**
   * Client `a` joins a fresh server and sends the chat text `text`, then
   * client `b` joins: `b`'s first read delivers `a`'s join, `a`'s message
   * and `b`'s own join, in that order and with their time stamps.
   */
  method LaterClientSeesEarlierOnes(a: string, b: string, text: string, t0: Time, t1: Time, t2: Time)
    returns (sent: seq<Entry>)
    requires text != [] && !StartsWith(text, Nick) && !StartsWith(text, Quit)
    ensures Posts(sent) == [Post(t0, JoinText(a)), Post(t1, ChatText(a, text)), Post(t2, JoinText(b))]
  {
    var q := new MsgQueue();
    JoinAndChat(q, a, text, t0, t1);
    Write(q, t2, JoinText(b));
    ReaderFreshShortHistory(q);
    var cursor;
    cursor, sent := SendAll(q, -1);
  }

  /** A session on a fresh queue that joins, sends one chat text and keeps running. */
  method JoinAndChat(q: MsgQueue, a: string, text: string, t0: Time, t1: Time)
    requires q.Valid() && q.log == []
    requires text != [] && !StartsWith(text, Nick) && !StartsWith(text, Quit)
    modifies q
    ensures q.Valid()
    ensures Posts(q.log) == [Post(t0, JoinText(a)), Post(t1, ChatText(a, text))]
  {
    assert Posts(q.log) == [];
    RunChat(a, text, t1);
    var peer, ended := HandleChild(q, a, t0, [Received(text, t1)]);
  }

  /** A text that is not empty and starts with neither command is relayed as a chat message. */
  lemma RunChat(peer: string, data: string, t: Time)
    requires data != [] && !StartsWith(data, Nick) && !StartsWith(data, Quit)
    ensures Run(peer, [Received(data, t)]) == Outcome([Post(t, ChatText(peer, data))], peer, false)
  {
    DispatchChat(peer, data);
    RunOne(peer, Received(data, t));
  }
}
