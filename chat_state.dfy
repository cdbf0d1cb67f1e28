/** Values of the chat screen's delivery engine (app/ChatScreen.jsx) and the pure updaters it
    applies to its message list and its pending queue. */
module ChatState {
  import opened JsString

  /** The status badge of a temporary message: `"sending"` or `"pending"`. */
  datatype Status = Sending | Pending

  /** A message of the displayed list. A temporary message the client appended carries a
      `tempId` and a `status`; the server's copy carries an `id` instead. */
  datatype Msg = Msg(tempId: Option<string>, id: Option<string>, roomId: string,
                     senderId: string, senderName: string, text: string,
                     createdAt: string, status: Option<Status>)

  /** A pending-queue entry `{tempId, roomId, text, createdAt}`. */
  datatype Entry = Entry(tempId: string, roomId: string, text: string, createdAt: string)

  /** The outcome of an HTTP fallback `POST`: it resolved, with `res.data.message` when the
      server returned one, or it rejected. */
  datatype Post = Replied(message: Option<Msg>) | PostThrew

  /** One delivery attempt. `Emitted` and `EmitThrew` are the socket path (the socket was
      connected at that moment); `Posted` is the HTTP path (it was not). */
  datatype Attempt = Emitted | EmitThrew | Posted(post: Post)

  /** The server copy an attempt hands back for in-place replacement, if any. */
  function Reply(a: Attempt): (r: Option<Msg>)
    ensures r.Some? <==> a.Posted? && a.post.Replied? && a.post.message.Some?
    ensures r.Some? ==> r == a.post.message
  {
    if a.Posted? && a.post.Replied? then a.post.message else None
  }

  /** Whether an attempt takes its entry off the queue: the emit returned, or the `POST`
      returned a message. */
  predicate Delivers(a: Attempt) {
    a.Emitted? || Reply(a).Some?
  }

  // ---------------------------------------------------------------------------------------
  // The message list
  // ---------------------------------------------------------------------------------------

  /** `after` keeps every message of `before` at its position, except temporary ones, which
      may have been swapped for another message; it may have grown at the end. Nothing shown
      is ever dropped and no confirmed message is ever overwritten. */
  ghost predicate KeepsTimeline(before: seq<Msg>, after: seq<Msg>) {
    && |before| <= |after|
    && forall k :: 0 <= k < |before| ==> after[k] == before[k] || before[k].tempId.Some?
  }

  /** `prev.map(m => m._tempId === t ? m' : m)`: every message whose temporary id is `t`
      becomes `m'`, in place. */
  function ReplaceByTempId(ms: seq<Msg>, t: string, m': Msg): (r: seq<Msg>)
    ensures |r| == |ms|
    ensures forall k :: 0 <= k < |ms| ==> r[k] == if ms[k].tempId == Some(t) then m' else ms[k]
    ensures KeepsTimeline(ms, r)
  {
    if ms == [] then []
    else [if ms[0].tempId == Some(t) then m' else ms[0]] + ReplaceByTempId(ms[1..], t, m')
  }

  /** When only the last message carries temporary id `t`, replacing by `t` swaps exactly
      that message and leaves the rest of the list as it was. */
  lemma ReplaceFreshTemp(ms: seq<Msg>, temp: Msg, t: string, m': Msg)
    requires temp.tempId == Some(t)
    requires forall k :: 0 <= k < |ms| ==> ms[k].tempId != Some(t)
    ensures ReplaceByTempId(ms + [temp], t, m') == ms + [m']
  {
    var r := ReplaceByTempId(ms + [temp], t, m');
    assert forall k :: 0 <= k < |ms| ==> (ms + [temp])[k] == ms[k];
    assert r[|ms|] == m';
  }

  /** The `newMessage` match: a temporary message (truthy `_tempId`) of the same room with
      exactly the same text. */
  predicate Matches(m: Msg, incoming: Msg) {
    Truthy(m.tempId) && m.roomId == incoming.roomId && m.text == incoming.text
  }

  /** `prev.findIndex(m => Matches(m, incoming))`: the first matching position, or -1. */
  function FindTemp(ms: seq<Msg>, incoming: Msg): (r: int)
    ensures -1 <= r < |ms|
    ensures r >= 0 ==> Matches(ms[r], incoming)
    ensures forall k :: 0 <= k < |ms| && (r == -1 || k < r) ==> !Matches(ms[k], incoming)
  {
    if ms == [] then -1
    else if Matches(ms[0], incoming) then 0
    else
      var r := FindTemp(ms[1..], incoming);
      assert forall k :: 1 <= k < |ms| ==> ms[k] == ms[1..][k - 1];
      if r == -1 then -1 else r + 1
  }

  /** The `newMessage` updater: the first temporary message of the same room with the same
      text is replaced by the server copy at its position; without one, the server copy is
      appended. */
  function Reconcile(ms: seq<Msg>, incoming: Msg): (r: seq<Msg>)
    ensures |r| == |ms| <==> exists k :: 0 <= k < |ms| && Matches(ms[k], incoming)
    ensures |r| != |ms| ==> r == ms + [incoming]
    ensures |r| == |ms| ==>
      exists k :: (0 <= k < |ms| && Matches(ms[k], incoming)
                   && (forall j :: 0 <= j < k ==> !Matches(ms[j], incoming))
                   && r == ms[k := incoming])
    ensures KeepsTimeline(ms, r)
  {
    var i := FindTemp(ms, incoming);
    if i != -1 then ms[i := incoming] else ms + [incoming]
  }

  /** Reconciliation swaps at most one message: of any two positions, one is unchanged. */
  lemma {:induction false} ReconcileTouchesOne(ms: seq<Msg>, incoming: Msg, j: nat, k: nat)
    requires j < k < |ms|
    ensures Reconcile(ms, incoming)[j] == ms[j] || Reconcile(ms, incoming)[k] == ms[k]
  {
    var r := Reconcile(ms, incoming);
    if |r| == |ms| {
      var i :| 0 <= i < |ms| && Matches(ms[i], incoming) && r == ms[i := incoming];
      assert i != j ==> r[j] == ms[j];
      assert i == j ==> r[k] == ms[k];
    } else {
      assert r[j] == (ms + [incoming])[j];
    }
  }

  // ---------------------------------------------------------------------------------------
  // The pending queue
  // ---------------------------------------------------------------------------------------

  /** `q.filter(p => p.tempId !== t)`. */
  function Without(q: seq<Entry>, t: string): (r: seq<Entry>)
    ensures |r| <= |q|
    ensures forall e :: e in r <==> e in q && e.tempId != t
  {
    if q == [] then []
    else
      var rest := Without(q[1..], t);
      if q[0].tempId == t then rest else [q[0]] + rest
  }

  /** Removal by temporary id keeps every other entry as many times as the queue held it. */
  lemma {:induction false} WithoutCounts(q: seq<Entry>, t: string, e: Entry)
    ensures multiset(Without(q, t))[e] == if e.tempId == t then 0 else multiset(q)[e]
  {
    if q != [] {
      WithoutCounts(q[1..], t, e);
      assert q == [q[0]] + q[1..];
    }
  }

  /** Removal by temporary id works piecewise, so the entries it keeps stay in their order. */
  lemma {:induction false} WithoutConcat(a: seq<Entry>, b: seq<Entry>, t: string)
    ensures Without(a + b, t) == Without(a, t) + Without(b, t)
  {
    if a != [] {
      assert (a + b)[1..] == a[1..] + b;
      WithoutConcat(a[1..], b, t);
    } else {
      assert a + b == b;
    }
  }

  /** Removing an id that no entry carries changes nothing. */
  lemma {:induction false} WithoutAbsent(q: seq<Entry>, t: string)
    requires forall k :: 0 <= k < |q| ==> q[k].tempId != t
    ensures Without(q, t) == q
  {
    if q != [] {
      WithoutAbsent(q[1..], t);
      assert q == [q[0]] + q[1..];
    }
  }

  /** Reference definition of "the entries whose id is not in `ids`, in queue order". */
  function Retained(q: seq<Entry>, ids: set<string>): (r: seq<Entry>)
    ensures forall e :: e in r <==> e in q && e.tempId !in ids
  {
    if q == [] then []
    else if q[0].tempId in ids then Retained(q[1..], ids)
    else [q[0]] + Retained(q[1..], ids)
  }

  /** Removing one more id after some have been removed is removing them all at once. */
  lemma {:induction false} WithoutRetained(q: seq<Entry>, ids: set<string>, t: string)
    ensures Without(Retained(q, ids), t) == Retained(q, ids + {t})
  {
    if q != [] {
      WithoutRetained(q[1..], ids, t);
      if q[0].tempId !in ids {
        assert Retained(q, ids) == [q[0]] + Retained(q[1..], ids);
        assert ([q[0]] + Retained(q[1..], ids))[1..] == Retained(q[1..], ids);
      }
    }
  }

  /** Removal by temporary id is retention with that one id removed. */
  lemma {:induction false} WithoutIsRetained(q: seq<Entry>, t: string)
    ensures Without(q, t) == Retained(q, {t})
  {
    if q != [] {
      WithoutIsRetained(q[1..], t);
      assert q == [q[0]] + q[1..];
    }
  }

  /** Retaining with no id removed keeps the whole queue. */
  lemma {:induction false} RetainedNone(q: seq<Entry>)
    ensures Retained(q, {}) == q
  {
    if q != [] {
      RetainedNone(q[1..]);
      assert q == [q[0]] + q[1..];
    }
  }

  /** At most one queue entry per temporary id. */
  predicate UniqueIds(q: seq<Entry>) {
    forall i, j :: 0 <= i < j < |q| ==> q[i].tempId != q[j].tempId
  }

  // ---------------------------------------------------------------------------------------
  // send
  // ---------------------------------------------------------------------------------------

  /** The optimistic message `send` appends: `"sending"` when the screen shows itself
      connected, `"pending"` otherwise. */
  function TempMessage(tempId: string, roomId: string, body: string, createdAt: string,
                       connected: bool): (m: Msg)
    ensures m.tempId == Some(tempId) && m.id.None? && m.text == body && m.roomId == roomId
    ensures m.status == Some(if connected then Sending else Pending)
  {
    Msg(Some(tempId), None, roomId, "me", "You", body, createdAt,
        Some(if connected then Sending else Pending))
  }

  /** The message list after a non-empty `send`: the temporary message is appended, and a
      message the HTTP fallback returns replaces every message carrying its temporary id.
      A failed read of the stored token (`tokenReadThrows`) stops the fallback before the
      `POST`, so `a` is then not consulted. */
  function SentMessages(ms: seq<Msg>, temp: Msg, a: Attempt, tokenReadThrows: bool): (r: seq<Msg>)
    requires temp.tempId.Some?
    ensures |r| == |ms| + 1 && KeepsTimeline(ms, r)
    ensures r[|ms|] == if SendDelivers(a, tokenReadThrows) && a.Posted? then Reply(a).value else temp
  {
    if a.Posted? && !tokenReadThrows && Reply(a).Some? then
      ReplaceByTempId(ms + [temp], temp.tempId.value, Reply(a).value)
    else ms + [temp]
  }

  /** Whether a `send` delivers its message at once: the emit returned, or the token was
      read and the `POST` returned the server copy. */
  predicate SendDelivers(a: Attempt, tokenReadThrows: bool) {
    a.Emitted? || (a.Posted? && !tokenReadThrows && Reply(a).Some?)
  }

  /** The pending queue after a non-empty `send`, as the code is written. On the socket path
      nothing is queued unless the emit throws, and then the outer `catch` queues the entry.
      On the HTTP path `addPending` queues the entry first; a returned message removes it
      again, a rejected `POST` leaves it; but when the token read after `addPending` throws,
      the outer `catch` runs `addPending` a second time. */
  function SentQueue(q: seq<Entry>, e: Entry, a: Attempt, tokenReadThrows: bool): (r: seq<Entry>)
    ensures forall x :: x in r ==> x in q || (x == e && !SendDelivers(a, tokenReadThrows))
    ensures !SendDelivers(a, tokenReadThrows) ==> |q| < |r| && r[..|q|] == q && r[|r| - 1] == e
  {
    match a
    case Emitted => q
    case EmitThrew => q + [e]
    case Posted(_) =>
      if tokenReadThrows then q + [e] + [e]
      else if Reply(a).Some? then Without(q + [e], e.tempId)
      else q + [e]
  }

  /** The queue as the design intends it: the entry is queued once on every path that does
      not deliver it. */
  function SentQueueFixed(q: seq<Entry>, e: Entry, a: Attempt, tokenReadThrows: bool): (r: seq<Entry>)
    ensures forall x :: x in r ==> x in q || (x == e && !SendDelivers(a, tokenReadThrows))
    ensures !SendDelivers(a, tokenReadThrows) ==> r == q + [e]
  {
    match a
    case Emitted => q
    case EmitThrew => q + [e]
    case Posted(_) =>
      if !tokenReadThrows && Reply(a).Some? then Without(q + [e], e.tempId) else q + [e]
  }

  /** A non-empty `send` whose temporary id is new to the list appends exactly one message at
      the end, the temporary message or the server copy that replaced it, and leaves every
      earlier message as it was. */
  lemma SendAppendsOne(ms: seq<Msg>, temp: Msg, a: Attempt, tokenReadThrows: bool)
    requires temp.tempId.Some?
    requires forall k :: 0 <= k < |ms| ==> ms[k].tempId != temp.tempId
    ensures var r := SentMessages(ms, temp, a, tokenReadThrows);
      && |r| == |ms| + 1 && r[..|ms|] == ms
      && r[|ms|] == (if a.Posted? && !tokenReadThrows && Reply(a).Some? then Reply(a).value else temp)
  {
    if a.Posted? && !tokenReadThrows && Reply(a).Some? {
      ReplaceFreshTemp(ms, temp, temp.tempId.value, Reply(a).value);
    }
    var r := SentMessages(ms, temp, a, tokenReadThrows);
    assert r[..|ms|] == ms;
  }

  /** When the temporary id is new to the queue, a send that delivers at once leaves the
      queue as it was (on the `POST` path its entry came and went), and any other send
      leaves the entry queued once at the end, a failed token read included. The code as
      written agrees with this everywhere except on a failed token read of the HTTP path. */
  lemma SendQueueOutcome(q: seq<Entry>, e: Entry, a: Attempt, tokenReadThrows: bool)
    requires forall k :: 0 <= k < |q| ==> q[k].tempId != e.tempId
    ensures SendDelivers(a, tokenReadThrows) ==> SentQueueFixed(q, e, a, tokenReadThrows) == q
    ensures !SendDelivers(a, tokenReadThrows) ==> SentQueueFixed(q, e, a, tokenReadThrows) == q + [e]
    ensures !(a.Posted? && tokenReadThrows) ==>
              SentQueue(q, e, a, tokenReadThrows) == SentQueueFixed(q, e, a, tokenReadThrows)
  {
    if a.Posted? && !tokenReadThrows && Reply(a).Some? {
      WithoutConcat(q, [e], e.tempId);
      WithoutAbsent(q, e.tempId);
      assert Without([e], e.tempId) == [];
    }
  }

  /** As written, a throwing token read on the HTTP path queues the same temporary id twice,
      whatever the queue held before: at-most-one-entry-per-id is lost. */
  lemma SendTokenFailureDuplicates(q: seq<Entry>, e: Entry, p: Post)
    ensures !UniqueIds(SentQueue(q, e, Posted(p), true))
    ensures SentQueue(q, e, Posted(p), true) == q + [e, e]
  {
    assert q + [e] + [e] == q + [e, e];
    assert (q + [e, e])[|q|] == e && (q + [e, e])[|q| + 1] == e;
  }

  /** With the entry queued once, a fresh temporary id keeps at most one entry per id on
      every path. */
  lemma SendFixedKeepsIdsUnique(q: seq<Entry>, e: Entry, a: Attempt, tokenReadThrows: bool)
    requires UniqueIds(q)
    requires forall k :: 0 <= k < |q| ==> q[k].tempId != e.tempId
    ensures UniqueIds(SentQueueFixed(q, e, a, tokenReadThrows))
  {
    if a.Posted? && !tokenReadThrows && Reply(a).Some? {
      WithoutConcat(q, [e], e.tempId);
      WithoutAbsent(q, e.tempId);
      assert Without([e], e.tempId) == [];
    }
  }

  // ---------------------------------------------------------------------------------------
  // flushPending
  // ---------------------------------------------------------------------------------------

  /** The temporary ids a flush over `snapshot` with outcomes `attempts` takes off the queue. */
  function DeliveredIds(snapshot: seq<Entry>, attempts: seq<Attempt>): (ids: set<string>)
    requires |snapshot| == |attempts|
    ensures forall t :: t in ids ==> exists k :: 0 <= k < |snapshot| && snapshot[k].tempId == t
    decreases |snapshot|
  {
    if |snapshot| == 0 then {}
    else
      var n := |snapshot| - 1;
      DeliveredIds(snapshot[..n], attempts[..n]) + if Delivers(attempts[n]) then {snapshot[n].tempId} else {}
  }

  /** An id is delivered exactly when some entry carrying it had an attempt that delivers. */
  lemma {:induction false} DeliveredIdsMembers(snapshot: seq<Entry>, attempts: seq<Attempt>, t: string)
    requires |snapshot| == |attempts|
    ensures t in DeliveredIds(snapshot, attempts) <==>
      exists k :: 0 <= k < |snapshot| && Delivers(attempts[k]) && snapshot[k].tempId == t
    decreases |snapshot|
  {
    if |snapshot| != 0 {
      var n := |snapshot| - 1;
      DeliveredIdsMembers(snapshot[..n], attempts[..n], t);
      assert forall k :: 0 <= k < n ==> snapshot[..n][k] == snapshot[k] && attempts[..n][k] == attempts[k];
    }
  }

  /** The message list after a flush has replayed `snapshot`: each entry whose `POST`
      returned a message has its temporary message replaced in place, in snapshot order. */
  function FlushedMessages(ms: seq<Msg>, snapshot: seq<Entry>, attempts: seq<Attempt>): (r: seq<Msg>)
    requires |snapshot| == |attempts|
    ensures |r| == |ms|
    ensures KeepsTimeline(ms, r)
    decreases |snapshot|
  {
    if |snapshot| == 0 then ms
    else
      var n := |snapshot| - 1;
      var prev := FlushedMessages(ms, snapshot[..n], attempts[..n]);
      if Reply(attempts[n]).Some? then ReplaceByTempId(prev, snapshot[n].tempId, Reply(attempts[n]).value)
      else prev
  }

  /** One more replayed entry: what a flush over the first `i + 1` entries does, from what it
      does over the first `i`. */
  lemma FlushStep(ms: seq<Msg>, snapshot: seq<Entry>, attempts: seq<Attempt>, i: nat)
    requires i < |snapshot| == |attempts|
    ensures Delivers(attempts[i]) ==> DeliveredIds(snapshot[..i + 1], attempts[..i + 1])
                                      == DeliveredIds(snapshot[..i], attempts[..i]) + {snapshot[i].tempId}
    ensures !Delivers(attempts[i]) ==> DeliveredIds(snapshot[..i + 1], attempts[..i + 1])
                                       == DeliveredIds(snapshot[..i], attempts[..i])
    ensures Reply(attempts[i]).Some? ==>
      FlushedMessages(ms, snapshot[..i + 1], attempts[..i + 1])
      == ReplaceByTempId(FlushedMessages(ms, snapshot[..i], attempts[..i]), snapshot[i].tempId,
                         Reply(attempts[i]).value)
    ensures Reply(attempts[i]).None? ==>
      FlushedMessages(ms, snapshot[..i + 1], attempts[..i + 1])
      == FlushedMessages(ms, snapshot[..i], attempts[..i])
  {
    assert snapshot[..i + 1][..i] == snapshot[..i] && attempts[..i + 1][..i] == attempts[..i];
  }

  /** Over a whole flush, a message stays where it was unless it is the temporary message
      of an entry whose `POST` returned the server copy: nothing else is lost or swapped. */
  lemma {:induction false} FlushKeepsUnreplied(ms: seq<Msg>, snapshot: seq<Entry>,
                                               attempts: seq<Attempt>, k: nat)
    requires |snapshot| == |attempts| && k < |ms|
    requires forall j :: 0 <= j < |snapshot| && Reply(attempts[j]).Some? ==>
               ms[k].tempId != Some(snapshot[j].tempId)
    ensures FlushedMessages(ms, snapshot, attempts)[k] == ms[k]
    decreases |snapshot|
  {
    if |snapshot| != 0 {
      var n := |snapshot| - 1;
      assert forall j :: 0 <= j < n ==> snapshot[..n][j] == snapshot[j] && attempts[..n][j] == attempts[j];
      FlushKeepsUnreplied(ms, snapshot[..n], attempts[..n], k);
    }
  }

  /** Over a whole flush, the temporary message of the first entry with its id whose `POST`
      returned a server copy ends up as that copy, in place, provided the copy carries no
      temporary id of its own (the server's messages do not). */
  lemma {:induction false} FlushShowsReply(ms: seq<Msg>, snapshot: seq<Entry>,
                                           attempts: seq<Attempt>, k: nat, j: nat)
    requires |snapshot| == |attempts| && k < |ms| && j < |snapshot|
    requires Reply(attempts[j]).Some? && Reply(attempts[j]).value.tempId.None?
    requires ms[k].tempId == Some(snapshot[j].tempId)
    requires forall i :: 0 <= i < j && Reply(attempts[i]).Some? ==> snapshot[i].tempId != snapshot[j].tempId
    ensures FlushedMessages(ms, snapshot, attempts)[k] == Reply(attempts[j]).value
    decreases |snapshot|
  {
    var n := |snapshot| - 1;
    assert forall i :: 0 <= i < n ==> snapshot[..n][i] == snapshot[i] && attempts[..n][i] == attempts[i];
    if n == j {
      FlushKeepsUnreplied(ms, snapshot[..n], attempts[..n], k);
    } else {
      FlushShowsReply(ms, snapshot[..n], attempts[..n], k, j);
    }
  }

  /** A flush in which every attempt delivers empties the queue it replayed. */
  lemma FlushAllDelivered(q: seq<Entry>, attempts: seq<Attempt>)
    requires |q| == |attempts|
    requires forall k :: 0 <= k < |attempts| ==> Delivers(attempts[k])
    ensures Retained(q, DeliveredIds(q, attempts)) == []
  {
    var ids := DeliveredIds(q, attempts);
    forall e | e in q ensures e.tempId in ids {
      var k :| 0 <= k < |q| && q[k] == e;
      DeliveredIdsMembers(q, attempts, e.tempId);
    }
    RetainedAll(q, ids);
  }

  /** Retaining none of the ids a queue carries leaves it empty. */
  lemma {:induction false} RetainedAll(q: seq<Entry>, ids: set<string>)
    requires forall e :: e in q ==> e.tempId in ids
    ensures Retained(q, ids) == []
  {
    if q != [] {
      assert q[0] in q;
      RetainedAll(q[1..], ids);
    }
  }

  /** An entry whose attempt was not delivered stays queued, provided no delivered entry of
      the same flush shares its temporary id. */
  lemma FlushKeepsFailed(q: seq<Entry>, attempts: seq<Attempt>, k: nat)
    requires |q| == |attempts| && k < |q|
    requires forall j :: 0 <= j < |q| && q[j].tempId == q[k].tempId ==> !Delivers(attempts[j])
    ensures q[k] in Retained(q, DeliveredIds(q, attempts))
  {
    DeliveredIdsMembers(q, attempts, q[k].tempId);
  }
}
