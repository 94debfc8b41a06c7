# Chat server message queue and session logic

This project models the core of a threaded chat server, `chatserverStub.py`, in Dafny.

Every connection runs `handlechild`:

- It announces the join.
- It repeatedly sends its client the messages it has not yet seen (`sendAll`).
- It receives a line and acts on it. The line can be a chat message, `/nick <name>`, `/quit [reason]`, or an empty read meaning the client closed.

All connections share one `MSGQueue`. This is a bounded list of the last 10 messages. Each message is stamped with a cyclic index 0..99. Each connection keeps a cursor, `lastread`, and `mesg_index` turns that cursor into the position from which the reader should resume.

The model has five modules:

- `CyclicIndex` (`cyclic_index.dfy`): `mesg_index` as `MesgIndex`. Lemmas say which offset it returns for every cursor a reader can hold, relative to a window of consecutive cyclic indices.
- `PyStr` (`py_str.dfy`): the Python string operations the dispatch relies on: `startswith`, `find`, `replace(old, new, 1)`, `lstrip`, `rstrip` and `strip`. The whitespace set is Python's: space, `\t`, `\n`, `\r`, `\v`, `\f`.
- `MessageQueue` (`message_queue.dfy`): the class `MsgQueue`, with the fields `msg`, `current` and the state of `cycle(range(MAX_INDEX))`. Only the critical sections are modelled: `Writer` updates the fields in place and trims the list with a loop, and `Reader` is a function of the state. A ghost history `log` of every write ever made defines the class invariant: the n-th write carries index n mod 100, and the queue is the last 10 of them.
- `ChatSession` (`chat_session.dfy`):
  - `clientExit` and the announcement formats.
  - The command dispatch as the pure function `Dispatch`.
  - The effect of one receive event (`Step`) and of a whole sequence of them (`Run`).
  - The imperative loop `HandleChild`, which is proved to write to the queue exactly the posts `Run` gives.
  - `SendAll`, proved to send exactly what the reader returns and to hand back the newest index as the new cursor.
- `Wrappers` (`wrappers.dfy`): `Option`, for Python's `None`.

### How the code behaves where a plain reading would expect otherwise

Both behaviours are stated exactly by the lemmas; neither is corrected in the model.

- **The sentinel -1 after the indices roll over.**
  - The comment at `chatserverStub.py:181-182` says the cursor -1 gets all available messages even after the index has cycled back to zero.
  - Once the queue's indices roll over (the oldest index is greater than the newest), `mesg_index` takes the branch at line 61 for -1 and returns `MAX_INDEX - old - 1`. That is the position of index 99.
  - So a newly joined reader of a queue holding 95..99, 0..4 receives only 99, 0..4 (`SentinelAfterRollOver`, in general `ReaderFresh`).
  - Only the sentinel is cut short. A stale cursor, meaning an index that has fallen out of the window, receives the whole window (`ReaderUnseenCursor`). On the queue 95..99, 0..4, cursor 50 takes the branch at line 63 and gets offset 0.
- **A cursor after the roll-over point is delivered twice.**
  - When the cursor is the index of a queued entry that lies after the roll-over point, line 61 returns the cursor's own position, not the one after it.
  - So the entry the reader last saw is sent again (`ReaderResumes`, `OffsetOfCursorInWindow`).

### How commands are recognised

- `/nick` is matched as a prefix with no trailing space, so `/nickname` renames to `name`. The program's own client sends `"/nick " + name` (`wxchat.py:296`), which strips to `name` (`DispatchNick`).
- The text is matched as received. Only the argument after the command is stripped.
- Every announcement ends with `\r\n` (`PostsEndWithCrLf`).
- A text starting with `/quit` can never start with `/nick` (`QuitIsNotNick`), so testing `/nick` first changes nothing.

## Model

| member | source | states |
|---|---|---|
| CyclicIndex.MesgIndex | chatserverStub.py:39-63 | `mesg_index`, branch for branch. For any oldest index below 100 and any cursor from -1 up, the offset is never negative, so the slice never counts from the end. `OffsetOfCursorInWindow`, `OffsetOfCursorOutsideWindow` and `OffsetInBounds` give its value for every cursor |
| CyclicIndex.OffsetOfCursorInWindow | chatserverStub.py:39-63 | for a cursor at window position k (not the newest), the offset is k+1 if no roll-over lies between the oldest entry and the cursor, and k (the cursor itself, re-sent) otherwise |
| CyclicIndex.OffsetOfCursorOutsideWindow | chatserverStub.py:50-63 | for a cursor that is not in the window (the sentinel -1 or a stale index), the offset is 0 (the whole queue). The exception is -1 on a rolled-over window: the offset is then the position of index 99, which lies inside the window, so the entries before it are skipped |
| CyclicIndex.OffsetInBounds | chatserverStub.py:39-63 | for every cursor in -1..99 other than the newest index, the offset lies in [0, n), so the reader's slice is never empty |
| CyclicIndex.WindowCovers | chatserverStub.py:56-63 | which cursors a window holds, and at which position, on each side of the roll-over |
| PyStr.Find | chatserverStub.py:213 | the result is -1 exactly when the pattern does not occur; otherwise it is an occurrence with none before it (Python's `find`, used by `replace`) |
| PyStr.ReplaceOnce | chatserverStub.py:213 | `replace(old, new, 1)`: the text is unchanged when the pattern does not occur. Otherwise the first occurrence, and only it, is replaced by `new`, so the length changes by |new| - |old|. `ReplacePrefix` states the case used by the dispatch |
| PyStr.ReplacePrefix | chatserverStub.py:213 | replacing the first occurrence of a prefix by "" drops exactly that prefix |
| PyStr.StripLeft | chatserverStub.py:213 | the result is a suffix, what was removed is all whitespace, and the result does not start with whitespace |
| PyStr.StripRight | chatserverStub.py:213 | the result is a prefix, what was removed is all whitespace, and the result does not end with whitespace |
| PyStr.Strip | chatserverStub.py:213 | the result has no whitespace at either end, and it is empty exactly when the input is all whitespace |
| PyStr.StripInfix | chatserverStub.py:213 | `strip` removes only whitespace: the result sits in the input with nothing but whitespace around it |
| PyStr.StripTrimmed | chatserverStub.py:213 | `strip` leaves a text with no surrounding whitespace unchanged |
| PyStr.StripPadded | chatserverStub.py:220 | `strip` of whitespace + t + whitespace is t, for a trimmed t |
| MessageQueue.SliceFrom | chatserverStub.py:127 | Python's `s[i:]`: always a suffix of `s`, and exactly `s[i..]` for an index inside `s`. A start past the end gives nothing, and a negative start -k gives the last k elements (all of `s` when k >= |s|) |
| MessageQueue.LastNAppend | chatserverStub.py:145-146 | keeping the last 10 after each append equals keeping the last 10 of everything appended |
| MessageQueue.DropOldest | chatserverStub.py:145-146 | removing from the front while longer than 10 leaves exactly the last 10, in order |
| MessageQueue.IndexedAppend | chatserverStub.py:143-144 | an entry stamped with the counter's value keeps the history numbered n mod 100, becomes the newest index, and is one past the previous newest index cyclically |
| MessageQueue.MsgQueue.constructor | chatserverStub.py:71-74 | the empty queue with `current` = -1 satisfies the invariant |
| MessageQueue.MsgQueue.Writer | chatserverStub.py:143-146 | `current` becomes 0 after -1 and otherwise the previous value + 1 mod 100. The entry (current, stamp, data) is appended to the history. The queue becomes the last 10 of old queue + [entry]. The invariant is kept |
| MessageQueue.MsgQueue.Reader | chatserverStub.py:123-127 | `None` exactly when the cursor equals `current`. Otherwise a suffix of the queue, which for every cursor in -1..99 is non-empty and ends with the entry whose index is `current` |
| MessageQueue.QueueShape | chatserverStub.py:143-146 | the invariant implies: at most 10 entries; empty exactly when `current` = -1; the newest entry carries `current`; consecutive entries differ by 1 mod 100 |
| MessageQueue.TailInBounds | chatserverStub.py:126-127 | the offset computed from any handed-out cursor other than `current` is a valid position in the queue |
| MessageQueue.ReaderResumes | chatserverStub.py:123-127 | a cursor naming the queued entry k (not the newest) reads `msg[k+1..]` before the roll-over point and `msg[k..]` after it |
| MessageQueue.ReaderUnseenCursor | chatserverStub.py:123-127 | a cursor naming no queued entry reads the whole queue. The exception is -1 on a rolled-over queue, which reads only from the entry with index 99 |
| MessageQueue.ReaderFresh | chatserverStub.py:181-183 | the sentinel -1 reads the whole queue until its indices roll over, and from index 99 onwards after that |
| MessageQueue.ReaderFreshShortHistory | chatserverStub.py:181-183 | while at most 10 messages have ever been written, the queue holds all of them and -1 reads all of them |
| MessageQueue.SentinelAfterRollOver | chatserverStub.py:61 | a full queue holding 95..99, 0..4 hands -1 only the entries 99, 0..4 |
| ChatSession.JoinText | chatserverStub.py:188 | the join announcement begins with the peer and ends with CR LF |
| ChatSession.ExitText | chatserverStub.py:164-173 | the exit announcement begins with the peer and ends with CR LF. It is longer than "peer has exited\r\n" exactly when an error is given and it is not "" |
| ChatSession.Argument | chatserverStub.py:213 | for a text starting with the command word, the argument is the rest of the text, stripped |
| ChatSession.RenameText | chatserverStub.py:215-216 | the rename announcement begins with the old name and ends with CR LF |
| ChatSession.LeaveText | chatserverStub.py:221-224 | the leave announcement begins with the peer and ends with CR LF |
| ChatSession.ChatText | chatserverStub.py:232-233 | a relayed chat message ends with CR LF |
| ChatSession.Dispatch | chatserverStub.py:205-233 | the command dispatch of `handlechild` on one received text. A text that ends the session never renames. A text that announces nothing (a blank `/nick`) neither ends the session nor renames. `DispatchSpec` gives its result for every text; `DispatchEmpty`, `DispatchRename`, `DispatchBlankNick`, `DispatchLeave` and `DispatchChat` give it case by case |
| ChatSession.DispatchSpec | chatserverStub.py:205-233 | for every peer and text:<br>• the session ends exactly on an empty text or a `/quit` text;<br>• nothing is announced exactly for `/nick` with a blank name;<br>• a rename takes the stripped, non-empty, trimmed name;<br>• otherwise the name is kept;<br>• each announcement is stated exactly: the exit text for an empty read, "old now goes by new" for a rename, the leave text with the stripped reason for `/quit`, and the chat text for anything else;<br>• every announcement ends with CR LF |
| ChatSession.DispatchRename | chatserverStub.py:211-216 | `/nick` followed by any text that is not all whitespace (for example "Bob\n") renames to the stripped text and announces "old now goes by new" |
| ChatSession.DispatchLeave | chatserverStub.py:219-226 | `/quit` followed by any text announces the leave with the stripped text as the reason (none when blank) and ends the session |
| ChatSession.DispatchEmpty | chatserverStub.py:205-207 | an empty read announces the exit without an error and ends the session |
| ChatSession.DispatchNick | chatserverStub.py:211-217 | `/nick name` renames to the name and announces "old now goes by name" |
| ChatSession.DispatchBlankNick | chatserverStub.py:211-217 | `/nick` followed only by whitespace keeps the name and announces nothing |
| ChatSession.DispatchQuit | chatserverStub.py:219-226 | `/quit reason` announces "peer is leaving now -- reason" and ends the session |
| ChatSession.DispatchBareQuit | chatserverStub.py:219-226 | `/quit` followed only by whitespace announces "peer is leaving now" and ends the session |
| ChatSession.DispatchChat | chatserverStub.py:230-233 | any other non-empty text is relayed as "Message from peer:\r\n\t text" and the session goes on |
| ChatSession.CommandArgument | chatserverStub.py:213 | the argument of "command + space + trimmed arg" is arg |
| ChatSession.QuitIsNotNick | chatserverStub.py:211-219 | a text starting with `/quit` does not start with `/nick` |
| ChatSession.Step | chatserverStub.py:193-207 | one receive event makes at most one post |
| ChatSession.Run | chatserverStub.py:190-233 | the effect of a sequence of receive events: each is handled by `Step` in order until one ends the session. There are never more posts than events. `RunAppend` and `RunEnded` state how it composes, and `HandleChild` is proved to post exactly what it gives |
| ChatSession.RunAppend | chatserverStub.py:190-233 | running two stretches of events is running the first, then (unless it ended the session) the second from the name reached; nothing after the end has an effect |
| ChatSession.RunEnded | chatserverStub.py:226 | events after the one that ends the session have no effect |
| ChatSession.RunChat | chatserverStub.py:230-233 | a single non-empty text that starts with neither `/nick` nor `/quit` (including texts such as "/me waves") posts its chat message and keeps the session going |
| ChatSession.RenameThenQuit | chatserverStub.py:211-226 | `/nick name` then `/quit reason` posts the rename and then "name is leaving now -- reason", in that order, and ends the session |
| ChatSession.PostsEndWithCrLf | chatserverStub.py:205-233 | every post a session makes ends with CR LF |
| ChatSession.Write | chatserverStub.py:173-232 | a `chatQueue.writer` call, as made at lines 173, 189, 215, 225 and 232: it adds exactly its (time stamp, text) to the queue's history and keeps the invariant |
| ChatSession.SendAll | chatserverStub.py:154-162 | sends exactly what the reader returns (nothing on `None`). The new cursor is `current`, so an immediate second call finds nothing new. When there was something new, the last entry sent carries the new cursor |
| ChatSession.SendEach | chatserverStub.py:159-162 | sends the entries in order and returns the index of the last one |
| ChatSession.HandleEvent | chatserverStub.py:193-233 | handling one receive event adds exactly that event's posts to the history and takes the name and end flag the dispatch gives |
| ChatSession.Serve | chatserverStub.py:190-233 | one loop pass (catch the client up, then handle the event) adds exactly the event's posts and keeps the cursor in range |
| ChatSession.HandleChild | chatserverStub.py:175-233 | the history grows by the join announcement followed by exactly the posts `Run` gives for the events, and the session ends with the name and end flag `Run` gives |
| ChatSession.JoinAndChat | chatserverStub.py:186-233 | on a fresh queue, joining and sending one text that starts with neither command posts the join and the chat message, in that order |
| ChatSession.LaterClientSeesEarlierOnes | chatserverStub.py:181-192 | when client a joins and sends a chat text (any text starting with neither command), and then client b joins, b's first read delivers a's join, a's message and b's own join, in order and with their time stamps |

## Left out

- The readers/writers lock protocol: the counters `readers` and `writers` and the five locks (`chatserverStub.py:75-81`, `114-121`, `129-132`, `137-141`, `148-152`). The critical sections are modelled as atomic operations of a sequential object, so concurrent interleavings are not modelled.
- Sockets, threads and the server's main loop (`main`, `accept`, `settimeout`, `send`, `recv`, `close`). Each receive attempt is an `Event` value, one per outcome: text received, `socket.timeout`, another `socket.error`, or any other exception. Which real-world condition raises which exception is not modelled. `handlechild`'s endless loop runs over a finite sequence of such events and stops early when the session ends.
- The `print` diagnostics. These have no effect on the queue.
- Time stamps are the opaque integer type `Time`, passed in as parameters; `time.localtime()` is not called. The `"At %s -- %s"` text with `time.asctime` that `sendAll` sends is not formatted: `SendAll` returns the entries it sends.
- The peer is a string. The first name is the text of `str(clientsock.getpeername())`, taken as given rather than rendered from an address tuple.
- MessageQueue.MsgQueue.Reader: requires a non-empty queue unless the cursor equals `current`. On an empty queue with any other cursor the source raises `IndexError` at `self.msg[0]`. No session can hold such a cursor, because each session writes its join announcement before it first reads.
- ChatSession.SendAll: requires the cursor to lie in -1..99, the only values a session ever holds. For other values the reader's slice can be empty, and the source would then fail with `last` unassigned.
- ChatSession.HandleChild: the texts sent to the client on each pass are not part of its contract; `SendAll` states them for one pass.
- `wxchat.py`, `rendezvous.py`, `chatnetworking.py` and `xclient.py` are not part of this model. They are a GUI, GUI call-forwarding wrappers, and two clients that execute received text as shell commands.
