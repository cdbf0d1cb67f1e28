/** The delivery engine of the chat screen (app/ChatScreen.jsx): the displayed message list,
    the in-memory pending queue and its persisted copy, the connection flag and the text
    being typed, updated in place by the screen's handlers. Storage and transport results
    are parameters; each handler runs to completion before the next one starts. */
module ChatScreen {
  import opened JsString
  import opened ChatState

  /** What the key-value store holds under the pending-queue key: nothing (or an empty
      string), text that does not parse, or the JSON of a list of entries. */
  datatype Blob = Missing | Garbled | Saved(entries: seq<Entry>)

  class Chat {
    /** The room this screen shows. */
    const roomId: string
    /** The displayed list: server messages and temporary ones. */
    var messages: seq<Msg>
    /** `pendingRef.current`, the in-memory queue of unsent messages. */
    var pending: seq<Entry>
    /** The stored copy of the queue. */
    var persisted: Blob
    /** Whether the screen shows the socket as connected. */
    var connected: bool
    /** The contents of the text input. */
    var draft: string

    /** The persisted copy is exactly the in-memory queue. */
    predicate Mirrored()
      reads this
    {
      persisted == Saved(pending)
    }

    /** A freshly mounted screen over what the store already holds. */
    constructor (roomId: string, stored: Blob)
      ensures this.roomId == roomId && persisted == stored
      ensures messages == [] && pending == [] && !connected && draft == ""
    {
      this.roomId := roomId;
      messages := [];
      pending := [];
      persisted := stored;
      connected := false;
      draft := "";
    }

    /** `loadPending`: the queue becomes the stored list; when nothing is stored, or reading
        or parsing fails, it becomes empty. The store itself is not written. */
    method LoadPending(readThrows: bool)
      modifies this`pending
      ensures pending == if !readThrows && persisted.Saved? then persisted.entries else []
      ensures !readThrows && persisted.Saved? ==> Mirrored()
    {
      if !readThrows && persisted.Saved? {
        pending := persisted.entries;
      } else {
        pending := [];
      }
    }

    /** `savePending`: the whole queue overwrites the stored copy. */
    method SavePending()
      modifies this`persisted
      ensures Mirrored()
    {
      persisted := Saved(pending);
    }

    /** `addPending`: the entry goes to the end of the queue, and the queue is saved. */
    method AddPending(e: Entry)
      modifies this`pending, this`persisted
      ensures pending == old(pending) + [e]
      ensures Mirrored()
    {
      pending := pending + [e];
      SavePending();
    }

    /** The text input's `onChangeText`. */
    method Type(s: string)
      modifies this`draft
      ensures draft == s
    {
      draft := s;
    }

    /** The initial history fetch: a response carrying a message list replaces the
        displayed list; a failed fetch leaves it alone. */
    method LoadHistory(reply: Option<seq<Msg>>)
      modifies this`messages
      ensures messages == if reply.Some? then reply.value else old(messages)
    {
      if reply.Some? {
        messages := reply.value;
      }
    }

    /** `send`. A draft that trims to nothing changes nothing. Otherwise the draft is
        cleared and a temporary message with the trimmed text and `tempId` is appended
        (`"sending"` if the screen shows itself connected, else `"pending"`). Attempt `a`
        says which transport the live socket state selected and how it went; on the HTTP
        path `tokenReadThrows` says whether reading the stored token failed; the entry is then
        queued once, as `SentQueueFixed` states, not twice as the code is written. */
    method Send(tempId: string, createdAt: string, a: Attempt, tokenReadThrows: bool)
      modifies this`messages, this`pending, this`persisted, this`draft
      ensures Trim(old(draft)) == [] ==>
        messages == old(messages) && pending == old(pending) && persisted == old(persisted)
        && draft == old(draft)
      ensures Trim(old(draft)) != [] ==>
        var body := Trim(old(draft));
        var temp := TempMessage(tempId, roomId, body, createdAt, connected);
        var e := Entry(tempId, roomId, body, createdAt);
        && draft == ""
        && messages == SentMessages(old(messages), temp, a, tokenReadThrows)
        && pending == SentQueueFixed(old(pending), e, a, tokenReadThrows)
        && persisted == if a == Emitted then old(persisted) else Saved(pending)
      ensures old(Mirrored()) ==> Mirrored()
      ensures KeepsTimeline(old(messages), messages)
    {
      var body := Trim(draft);
      if body == [] {
        return;
      }
      draft := "";
      var temp := TempMessage(tempId, roomId, body, createdAt, connected);
      messages := messages + [temp];
      var e := Entry(tempId, roomId, body, createdAt);
      match a {
        case Emitted =>
        case EmitThrew =>
          AddPending(e);
        case Posted(_) =>
          AddPending(e);
          if !tokenReadThrows && Reply(a).Some? {
            messages := ReplaceByTempId(messages, tempId, Reply(a).value);
            pending := Without(pending, tempId);
            SavePending();
          }
      }
    }

    /** `flushPending`. An empty queue, or a failed read of the stored token, changes
        nothing. Otherwise a snapshot of the queue is replayed in order with one attempt per
        entry: an emitted entry leaves the queue, a `POST` that returns a message takes its
        entry off the queue and replaces its temporary message in place, and an entry whose
        attempt threw or returned nothing stays. The queue is saved after every removal. */
    method Flush(tokenReadThrows: bool, attempts: seq<Attempt>)
      requires |attempts| == |pending|
      modifies this`messages, this`pending, this`persisted
      ensures old(Mirrored()) ==> Mirrored()
      ensures old(pending) == [] || tokenReadThrows ==>
        messages == old(messages) && pending == old(pending) && persisted == old(persisted)
      ensures old(pending) != [] && !tokenReadThrows ==>
        var ids := DeliveredIds(old(pending), attempts);
        && pending == Retained(old(pending), ids)
        && messages == FlushedMessages(old(messages), old(pending), attempts)
        && persisted == if ids == {} then old(persisted) else Saved(pending)
    {
      if pending == [] || tokenReadThrows {
        return;
      }
      var queue := pending;
      ghost var before := messages;
      ghost var stored := persisted;
      RetainedNone(queue);
      var i := 0;
      while i < |queue|
        invariant 0 <= i <= |queue| == |attempts|
        invariant FlushedUpTo(queue, attempts, i, before, stored)
      {
        FlushTurn(queue, attempts, i, before, stored);
        i := i + 1;
      }
      assert queue[..i] == queue && attempts[..i] == attempts;
    }

    /** The state after the first `i` turns of a flush of `queue` that started from the
        displayed list `before` and the stored copy `stored`. */
    ghost predicate FlushedUpTo(queue: seq<Entry>, attempts: seq<Attempt>, i: nat,
                                before: seq<Msg>, stored: Blob)
      requires i <= |queue| == |attempts|
      reads this
    {
      var ids := DeliveredIds(queue[..i], attempts[..i]);
      && pending == Retained(queue, ids)
      && messages == FlushedMessages(before, queue[..i], attempts[..i])
      && persisted == if ids == {} then stored else Saved(pending)
    }

    /** Turn `i` of the flush loop keeps the loop's account of the state. */
    method FlushTurn(queue: seq<Entry>, attempts: seq<Attempt>, i: nat,
                     ghost before: seq<Msg>, ghost stored: Blob)
      requires i < |queue| == |attempts|
      requires FlushedUpTo(queue, attempts, i, before, stored)
      modifies this`messages, this`pending, this`persisted
      ensures FlushedUpTo(queue, attempts, i + 1, before, stored)
    {
      ghost var done := DeliveredIds(queue[..i], attempts[..i]);
      FlushStep(before, queue, attempts, i);
      if Delivers(attempts[i]) {
        WithoutRetained(queue, done, queue[i].tempId);
      }
      FlushEntry(queue[i], attempts[i]);
    }

    /** One turn of the `flushPending` loop: emitting takes the entry off the queue; a `POST`
        that returns a message replaces the entry's temporary message in place and takes the
        entry off the queue; either way the queue is then saved. A throwing attempt, or a
        `POST` that returns no message, changes nothing. */
    method FlushEntry(item: Entry, a: Attempt)
      modifies this`messages, this`pending, this`persisted
      ensures Delivers(a) ==> pending == Without(old(pending), item.tempId) && Mirrored()
      ensures !Delivers(a) ==> pending == old(pending) && persisted == old(persisted)
      ensures messages == if Reply(a).Some? then ReplaceByTempId(old(messages), item.tempId, Reply(a).value)
                          else old(messages)
    {
      match a {
        case Emitted =>
          pending := Without(pending, item.tempId);
          SavePending();
        case EmitThrew =>
        case Posted(p) =>
          if p.Replied? && p.message.Some? {
            messages := ReplaceByTempId(messages, item.tempId, p.message.value);
            pending := Without(pending, item.tempId);
            SavePending();
          }
      }
    }

    /** The `connect` and `reconnect` handlers: the screen shows itself connected, then the
        queue is flushed. */
    method OnConnect(tokenReadThrows: bool, attempts: seq<Attempt>)
      requires |attempts| == |pending|
      modifies this`messages, this`pending, this`persisted, this`connected
      ensures connected
      ensures old(Mirrored()) ==> Mirrored()
      ensures old(pending) == [] || tokenReadThrows ==>
        messages == old(messages) && pending == old(pending) && persisted == old(persisted)
      ensures old(pending) != [] && !tokenReadThrows ==>
        var ids := DeliveredIds(old(pending), attempts);
        && pending == Retained(old(pending), ids)
        && messages == FlushedMessages(old(messages), old(pending), attempts)
        && persisted == if ids == {} then old(persisted) else Saved(pending)
    {
      connected := true;
      Flush(tokenReadThrows, attempts);
    }

    /** The `disconnect` handler: only the connection flag changes; the queue is left. */
    method OnDisconnect()
      modifies this`connected
      ensures !connected
    {
      connected := false;
    }

    /** The `newMessage` handler: the broadcast server copy is reconciled into the list. */
    method OnNewMessage(incoming: Msg)
      modifies this`messages
      ensures messages == Reconcile(old(messages), incoming)
      ensures KeepsTimeline(old(messages), messages)
    {
      messages := Reconcile(messages, incoming);
    }
  }
}
