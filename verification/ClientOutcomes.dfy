/** What each call of a client does, exactly: which handlers are called with what, what is recorded, and when each
    transaction expires. */
module ClientOutcomes {
  import opened Base
  import opened Wire
  import opened AgentSpec
  import opened ClientSpec
  import opened ClientProofs
  import opened ClientTheorems
  import opened ClientExpiries

  // One event.

  /** A transaction that is tried again waits for as many RTOs as it was tried, from the time it is written. */
  lemma ResendDeadline(c: Client, waiting: set<TxId>, id: TxId, at: Time, ans: Answer)
    requires Live(c) && Linked(c, waiting) && id in waiting && c.t[id].attempt < c.maxAttempts && ans.writeOk
    ensures var d := HandleEvent(c, Event(id, Some(TransactionTimeOut)), at, ans);
            && id in d.t && d.t[id] == Tried(c.t[id])
            && id in d.agent.transactions && d.agent.transactions[id] == ans.now + (c.t[id].attempt + 2) * c.t[id].rto
  {
    assert c.t[id].id == id && c.t[id].calls == 0;
    assert NextTimeout(Tried(c.t[id]), ans.now) == ans.now + (c.t[id].attempt + 2) * c.t[id].rto;
    hide Live, HandleEvent, Wrote, Resent, NextTimeout;
    EventOutcome(c, waiting, Event(id, Some(TransactionTimeOut)), at, ans);
  }

  /** The rest of the client is as it was, and nothing that happened is forgotten. */
  ghost predicate Leaves(c: Client, d: Client, id: TxId) {
    && (id in d.t <==> id in c.t) && (id in c.t ==> d.t[id] == c.t[id])
    && (id in d.agent.transactions <==> id in c.agent.transactions)
    && (id in c.agent.transactions ==> d.agent.transactions[id] == c.agent.transactions[id])
    && c.callbacks <= d.callbacks && d.unmatched == c.unmatched && d.maxAttempts == c.maxAttempts
  }

  lemma TimeOutLeaves(c: Client, waiting: set<TxId>, id: TxId, other: TxId, at: Time, ans: Answer)
    requires Live(c) && Linked(c, waiting) && id in waiting && other != id
    ensures Leaves(c, HandleEvent(c, Event(id, Some(TransactionTimeOut)), at, ans), other)
  {
    assert c.t[id].id == id && c.t[id].calls == 0;
    hide Live, HandleEvent, Resent, NextTimeout;
    EventOutcome(c, waiting, Event(id, Some(TransactionTimeOut)), at, ans);
  }

  /** What a time-out does to its own transaction. */
  ghost predicate TimedOut(c: Client, d: Client, id: TxId, at: Time, ans: Answer)
    requires id in c.t
  {
    var x := c.t[id];
    if x.attempt < c.maxAttempts && ans.writeOk then
      && id in d.t && d.t[id] == Tried(x)
      && id in d.agent.transactions && d.agent.transactions[id] == ans.now + (x.attempt + 2) * x.rto
    else
      && id !in d.t && id !in d.agent.transactions
      && Callback(x.tag, Event(id, Some(if x.attempt < c.maxAttempts then WriteFailed else TransactionTimeOut)), at) in d.callbacks
  }

  lemma TimeOutOutcome(c: Client, waiting: set<TxId>, id: TxId, at: Time, ans: Answer)
    requires Live(c) && Linked(c, waiting) && id in waiting
    ensures TimedOut(c, HandleEvent(c, Event(id, Some(TransactionTimeOut)), at, ans), id, at, ans)
  {
    var x, d := c.t[id], HandleEvent(c, Event(id, Some(TransactionTimeOut)), at, ans);
    if x.attempt < c.maxAttempts && ans.writeOk {
      ResendDeadline(c, waiting, id, at, ans);
    } else {
      assert x.id == id && x.calls == 0;
      hide Live, HandleEvent, Resent, NextTimeout;
      EventOutcome(c, waiting, Event(id, Some(TransactionTimeOut)), at, ans);
      assert d.callbacks[|c.callbacks|] in d.callbacks;
    }
  }

  // Collections.

  lemma {:induction false} DeliveriesLeave(c: Client, order: seq<TxId>, waiting: set<TxId>, other: TxId, at: Time, answers: seq<Answer>)
    requires |answers| == |order| && (forall i :: 0 <= i < |answers| ==> at <= answers[i].now) && Enumerates(order, waiting)
    requires Sane(c) && Linked(c, waiting) && Late(c, waiting, at) && other !in waiting
    ensures Leaves(c, DeliverAll(c, order, TransactionTimeOut, at, answers), other)
    decreases |order|
  {
    hide HandleEvent, Live, Accounted, Written, NotBefore, Late, Linked;
    if order != [] {
      EnumeratesRest(order, waiting);
      TimeOutLeaves(c, waiting, order[0], other, at, answers[0]);
      TimeOutKeeps(c, waiting, order[0], at, answers[0]);
      DeliveriesLeave(HandleEvent(c, Event(order[0], Some(TransactionTimeOut)), at, answers[0]), order[1..], waiting - {order[0]}, other, at, answers[1..]);
    }
  }

  lemma TimedOutStays(c: Client, d: Client, e: Client, id: TxId, at: Time, ans: Answer)
    requires id in c.t && TimedOut(c, d, id, at, ans) && Leaves(d, e, id)
    ensures TimedOut(c, e, id, at, ans)
  {
  }

  lemma TimedOutEarlier(c: Client, d: Client, e: Client, id: TxId, at: Time, ans: Answer)
    requires id in c.t && Leaves(c, d, id) && TimedOut(d, e, id, at, ans)
    ensures TimedOut(c, e, id, at, ans)
  {
  }

  /** Each delivery of a collection does to its transaction what its own answer says, whatever the others do. */
  lemma {:induction false} DeliveriesOutcome(c: Client, order: seq<TxId>, waiting: set<TxId>, at: Time, answers: seq<Answer>, k: nat)
    requires |answers| == |order| && (forall i :: 0 <= i < |answers| ==> at <= answers[i].now) && Enumerates(order, waiting)
    requires Sane(c) && Linked(c, waiting) && Late(c, waiting, at) && k < |order|
    ensures order[k] in c.t && TimedOut(c, DeliverAll(c, order, TransactionTimeOut, at, answers), order[k], at, answers[k])
    decreases |order|
  {
    hide HandleEvent, DeliverAll, Enumerates, Live, Accounted, Written, NotBefore, Late, Linked, TimedOut, Leaves;
    InTurn(c, order, waiting, k);
    DeliverFirst(c, order, at, answers);
    var d := HandleEvent(c, Event(order[0], Some(TransactionTimeOut)), at, answers[0]);
    EnumeratesRest(order, waiting);
    TimeOutKeeps(c, waiting, order[0], at, answers[0]);
    if k == 0 {
      TimeOutOutcome(c, waiting, order[0], at, answers[0]);
      DeliveriesLeave(d, order[1..], waiting - {order[0]}, order[0], at, answers[1..]);
      TimedOutStays(c, d, DeliverAll(c, order, TransactionTimeOut, at, answers), order[0], at, answers[0]);
    } else {
      TimeOutLeaves(c, waiting, order[0], order[k], at, answers[0]);
      DeliveriesOutcome(d, order[1..], waiting - {order[0]}, at, answers[1..], k - 1);
      TimedOutEarlier(c, d, DeliverAll(c, order, TransactionTimeOut, at, answers), order[k], at, answers[k]);
    }
  }

  lemma InTurn(c: Client, order: seq<TxId>, waiting: set<TxId>, k: nat)
    requires Enumerates(order, waiting) && Linked(c, waiting) && k < |order|
    ensures order[k] in waiting && order[k] in c.t && order[0] in waiting && order[0] in c.t && (k > 0 ==> order[0] != order[k])
  {
  }

  lemma DeliverFirst(c: Client, order: seq<TxId>, at: Time, answers: seq<Answer>)
    requires |answers| == |order| && order != []
    ensures DeliverAll(c, order, TransactionTimeOut, at, answers)
         == DeliverAll(HandleEvent(c, Event(order[0], Some(TransactionTimeOut)), at, answers[0]), order[1..], TransactionTimeOut, at, answers[1..])
  {
    hide HandleEvent;
  }

  /** A collection: every transaction that expired is sent again with the next deadline, or its handler is called with
      a time-out or the failed write; every other one is left alone. */
  lemma CollectOutcome(c: Client, gcTime: Time, order: seq<TxId>, answers: seq<Answer>)
    requires Inv(c) && !c.closed && Possible(c, CallCollect(gcTime, order, answers))
    ensures var d := Collect(c, gcTime, order, answers);
            && (forall k :: 0 <= k < |order| ==> order[k] in c.t && TimedOut(c, d, order[k], gcTime, answers[k]))
            && (forall id: TxId :: id !in Expired(c.agent, gcTime) ==> Leaves(c, d, id))
  {
    hide Live, Accounted, Written, NotBefore, Late, DeliverAll, TimedOut;
    var c1, waiting := c.(agent := CollectSection(c.agent, gcTime)), Expired(c.agent, gcTime);
    var d := Collect(c, gcTime, order, answers);
    FewerRegistered(c, c1.agent);
    CollectWaiting(c, gcTime);
    forall k | 0 <= k < |order| ensures order[k] in c.t && TimedOut(c, d, order[k], gcTime, answers[k]) {
      DeliveriesOutcome(c1, order, waiting, gcTime, answers, k);
      SameTransactions(c, c1, d, order[k], gcTime, answers[k]);
    }
    forall id: TxId | id !in waiting ensures Leaves(c, d, id) {
      DeliveriesLeave(c1, order, waiting, id, gcTime, answers);
    }
  }

  lemma SameTransactions(c: Client, c1: Client, d: Client, id: TxId, at: Time, ans: Answer)
    requires id in c1.t && c1 == c.(agent := c1.agent) && TimedOut(c1, d, id, at, ans)
    ensures id in c.t && TimedOut(c, d, id, at, ans)
  {
  }

  // Messages.

  /** A message ends the transaction with its id, in both maps, and its handler is called with it. If there is none the
      handler of the client, if there is one, gets it, and nothing else happens. */
  lemma ProcessOutcome(c: Client, id: TxId, ans: Answer)
    requires Inv(c) && !c.closed
    ensures var d := Process(c, id, ans);
            && d.t == c.t - {id} && d.agent.transactions == c.agent.transactions - {id} && d.wire == c.wire
            && d.callbacks == c.callbacks + (if id in c.t then [Callback(c.t[id].tag, Event(id, None), ans.now)] else [])
            && d.unmatched == c.unmatched + (if id !in c.t && c.hasHandler then [Event(id, None)] else [])
  {
    hide Accounted, Written, NotBefore, Resend;
    if id in c.t {
      assert c.t[id].calls == 0;
    }
  }

  /** The handler of the client gets exactly the messages without a transaction: no time-out and no stop. */
  lemma UnmatchedExact(c: Client, call: Call)
    requires Inv(c) && Possible(c, call)
    ensures Next(c, call).unmatched == c.unmatched +
            (if call.CallProcess? && !c.closed && call.id !in c.t && c.hasHandler then [Event(call.id, None)] else [])
  {
    hide Inv, Start, Collect, Process, Close;
    match call {
      case CallStart(id, raw, withHandler, ans) => StartUnmatched(c, id, raw, withHandler, ans);
      case CallCollect(gcTime, order, answers) => CollectUnmatched(c, gcTime, order, answers);
      case CallProcess(id, ans) => ProcessUnmatched(c, id, ans);
      case CallSetRTO(_) =>
      case CallClose(order, answers) => CloseKeeps(c, order, answers);
    }
  }

  lemma StartUnmatched(c: Client, id: TxId, raw: Bytes, withHandler: bool, ans: Answer)
    ensures Start(c, id, raw, withHandler, ans).c.unmatched == c.unmatched
  {
    if !c.closed && withHandler {
      hide Start, Wrote;
      StartOutcome(c, id, raw, ans);
    }
  }

  lemma CollectUnmatched(c: Client, gcTime: Time, order: seq<TxId>, answers: seq<Answer>)
    requires Inv(c) && Possible(c, CallCollect(gcTime, order, answers))
    ensures Collect(c, gcTime, order, answers).unmatched == c.unmatched
  {
    if !c.agent.closed {
      hide Live, Accounted, Written, NotBefore, Late, DeliverAll;
      var c1 := c.(agent := CollectSection(c.agent, gcTime));
      FewerRegistered(c, c1.agent);
      CollectWaiting(c, gcTime);
      DeliveriesUnmatched(c1, order, Expired(c.agent, gcTime), gcTime, answers);
    }
  }

  lemma {:induction false} DeliveriesUnmatched(c: Client, order: seq<TxId>, waiting: set<TxId>, at: Time, answers: seq<Answer>)
    requires |answers| == |order| && (forall i :: 0 <= i < |answers| ==> at <= answers[i].now) && Enumerates(order, waiting)
    requires Sane(c) && Linked(c, waiting) && Late(c, waiting, at)
    ensures DeliverAll(c, order, TransactionTimeOut, at, answers).unmatched == c.unmatched
    decreases |order|
  {
    hide HandleEvent, Live, Accounted, Written, NotBefore, Late, Linked;
    if order != [] {
      EnumeratesRest(order, waiting);
      TimeOutUnmatched(c, waiting, order[0], at, answers[0]);
      TimeOutKeeps(c, waiting, order[0], at, answers[0]);
      DeliveriesUnmatched(HandleEvent(c, Event(order[0], Some(TransactionTimeOut)), at, answers[0]), order[1..], waiting - {order[0]}, at, answers[1..]);
    }
  }

  lemma TimeOutUnmatched(c: Client, waiting: set<TxId>, id: TxId, at: Time, ans: Answer)
    requires Live(c) && Linked(c, waiting) && id in waiting
    ensures HandleEvent(c, Event(id, Some(TransactionTimeOut)), at, ans).unmatched == c.unmatched
  {
    assert c.t[id].id == id && c.t[id].calls == 0;
    hide Live, HandleEvent, Resent, NextTimeout;
    EventOutcome(c, waiting, Event(id, Some(TransactionTimeOut)), at, ans);
  }

  lemma ProcessUnmatched(c: Client, id: TxId, ans: Answer)
    requires Inv(c)
    ensures Process(c, id, ans).unmatched == c.unmatched + (if !c.closed && id !in c.t && c.hasHandler then [Event(id, None)] else [])
  {
    if !c.closed {
      hide Inv, Process;
      ProcessOutcome(c, id, ans);
    } else {
      hide Sane, HandleEvent;
      assert c.unmatched + [] == c.unmatched;
    }
  }

  // Writes.

  /** A message without a handler is written and changes nothing else. */
  lemma IndicationOutcome(c: Client, id: TxId, raw: Bytes, ans: Answer)
    ensures var r := Start(c, id, raw, false, ans);
            && r.err == (if c.closed then Some(ClientClosed) else if ans.writeOk then None else Some(WriteFailed))
            && r.c == c.(wire := c.wire + if c.closed then [] else [raw])
  {
    assert c.wire + [] == c.wire;
  }

  /** What a collection writes: of each transaction with attempts left, in turn, as much as is sent again. */
  function Retries(c: Client, order: seq<TxId>): seq<Bytes>
    requires forall i :: 0 <= i < |order| ==> order[i] in c.t
    decreases |order|
  {
    if order == [] then []
    else (if c.t[order[0]].attempt < c.maxAttempts then [Resent(c.t[order[0]].raw)] else []) + Retries(c, order[1..])
  }

  lemma {:induction false} RetriesSame(c: Client, d: Client, order: seq<TxId>)
    requires d.maxAttempts == c.maxAttempts && forall i :: 0 <= i < |order| ==> order[i] in c.t && order[i] in d.t && d.t[order[i]] == c.t[order[i]]
    ensures Retries(d, order) == Retries(c, order)
    decreases |order|
  {
    hide Resent;
    if order != [] {
      RetriesSame(c, d, order[1..]);
    }
  }

  lemma TimeOutWrites(c: Client, waiting: set<TxId>, id: TxId, at: Time, ans: Answer)
    requires Live(c) && Linked(c, waiting) && id in waiting
    ensures HandleEvent(c, Event(id, Some(TransactionTimeOut)), at, ans).wire
         == c.wire + if c.t[id].attempt < c.maxAttempts then [Resent(c.t[id].raw)] else []
  {
    assert c.t[id].id == id && c.t[id].calls == 0;
    assert c.wire + [] == c.wire;
    hide Live, HandleEvent, Resent, NextTimeout;
    EventOutcome(c, waiting, Event(id, Some(TransactionTimeOut)), at, ans);
  }

  lemma {:induction false} DeliveriesWrite(c: Client, order: seq<TxId>, waiting: set<TxId>, at: Time, answers: seq<Answer>)
    requires |answers| == |order| && (forall i :: 0 <= i < |answers| ==> at <= answers[i].now) && Enumerates(order, waiting)
    requires Sane(c) && Linked(c, waiting) && Late(c, waiting, at)
    ensures forall i :: 0 <= i < |order| ==> order[i] in c.t
    ensures DeliverAll(c, order, TransactionTimeOut, at, answers).wire == c.wire + Retries(c, order)
    decreases |order|
  {
    hide HandleEvent, DeliverAll, Enumerates, Live, Accounted, Written, NotBefore, Late, Linked, Retries;
    AllInTurn(c, order, waiting, at, answers);
    if order != [] {
      DeliverFirst(c, order, at, answers);
      EnumeratesRest(order, waiting);
      TimeOutKeeps(c, waiting, order[0], at, answers[0]);
      TimeOutWrites(c, waiting, order[0], at, answers[0]);
      DeliveriesWrite(HandleEvent(c, Event(order[0], Some(TransactionTimeOut)), at, answers[0]), order[1..], waiting - {order[0]}, at, answers[1..]);
      RestSame(c, order, waiting, at, answers[0]);
      RetriesFirst(c, order);
    }
  }

  lemma RetriesFirst(c: Client, order: seq<TxId>)
    requires order != [] && forall i :: 0 <= i < |order| ==> order[i] in c.t
    ensures forall i :: 0 <= i < |order[1..]| ==> order[1..][i] in c.t
    ensures var first := if c.t[order[0]].attempt < c.maxAttempts then [Resent(c.t[order[0]].raw)] else [];
            c.wire + Retries(c, order) == (c.wire + first) + Retries(c, order[1..])
  {
    var first := if c.t[order[0]].attempt < c.maxAttempts then [Resent(c.t[order[0]].raw)] else [];
    assert Retries(c, order) == first + Retries(c, order[1..]);
    hide Resent, Retries;
    Associates(c.wire, first, Retries(c, order[1..]));
  }

  lemma AllInTurn(c: Client, order: seq<TxId>, waiting: set<TxId>, at: Time, answers: seq<Answer>)
    requires Enumerates(order, waiting) && Linked(c, waiting) && |answers| == |order|
    ensures forall i :: 0 <= i < |order| ==> order[i] in c.t
    ensures order == [] ==> DeliverAll(c, order, TransactionTimeOut, at, answers) == c && c.wire + Retries(c, order) == c.wire
  {
  }

  lemma RestSame(c: Client, order: seq<TxId>, waiting: set<TxId>, at: Time, ans: Answer)
    requires Enumerates(order, waiting) && Linked(c, waiting) && Live(c) && order != []
    ensures var d := HandleEvent(c, Event(order[0], Some(TransactionTimeOut)), at, ans);
            && (forall i :: 0 <= i < |order[1..]| ==> order[1..][i] in c.t && order[1..][i] in d.t)
            && Retries(d, order[1..]) == Retries(c, order[1..])
  {
    var d := HandleEvent(c, Event(order[0], Some(TransactionTimeOut)), at, ans);
    hide HandleEvent, Live, Linked, Enumerates, Retries;
    EventKeepsBooks(c, Event(order[0], Some(TransactionTimeOut)), at, ans);
    forall i | 0 <= i < |order[1..]| ensures order[1..][i] in c.t && order[1..][i] in d.t && d.t[order[1..][i]] == c.t[order[1..][i]] {
      OtherTurn(c, order, waiting, i + 1, at, ans);
    }
    RetriesSame(c, d, order[1..]);
  }

  lemma OtherTurn(c: Client, order: seq<TxId>, waiting: set<TxId>, i: nat, at: Time, ans: Answer)
    requires Enumerates(order, waiting) && Linked(c, waiting) && Live(c) && 0 < i < |order|
    ensures var d := HandleEvent(c, Event(order[0], Some(TransactionTimeOut)), at, ans);
            order[i] in c.t && order[i] in d.t && d.t[order[i]] == c.t[order[i]] && d.maxAttempts == c.maxAttempts
  {
    hide HandleEvent, Live;
    TimeOutLeaves(c, waiting, order[0], order[i], at, ans);
  }

  /** What every call gives to the connection. */
  ghost function WrittenBy(c: Client, call: Call): seq<Bytes> {
    match call
    case CallStart(id, raw, withHandler, _) => if c.closed || (withHandler && id in c.t) then [] else [raw]
    case CallCollect(_, order, _) =>
      if c.closed || exists i :: 0 <= i < |order| && order[i] !in c.t then [] else Retries(c, order)
    case _ => []
  }

  lemma WrittenExact(c: Client, call: Call)
    requires Inv(c) && Possible(c, call)
    ensures Next(c, call).wire == c.wire + WrittenBy(c, call)
  {
    assert c.wire + [] == c.wire;
    match call {
      case CallStart(id, raw, withHandler, ans) => StartWritten(c, id, raw, withHandler, ans);
      case CallCollect(gcTime, order, answers) => CollectWritten(c, gcTime, order, answers);
      case CallProcess(id, ans) =>
        if !c.closed {
          ProcessOutcome(c, id, ans);
        } else {
          ClosedStep(c, call);
        }
      case CallSetRTO(_) =>
      case CallClose(order, answers) => CloseKeeps(c, order, answers);
    }
  }

  lemma StartWritten(c: Client, id: TxId, raw: Bytes, withHandler: bool, ans: Answer)
    requires Inv(c)
    ensures Start(c, id, raw, withHandler, ans).c.wire == c.wire + if c.closed || (withHandler && id in c.t) then [] else [raw]
  {
    hide Sane;
    assert c.wire + [] == c.wire;
    if !c.closed && withHandler {
      hide Start;
      StartOutcome(c, id, raw, ans);
    }
  }

  lemma CollectWritten(c: Client, gcTime: Time, order: seq<TxId>, answers: seq<Answer>)
    requires Inv(c) && Possible(c, CallCollect(gcTime, order, answers))
    ensures Collect(c, gcTime, order, answers).wire == c.wire + WrittenBy(c, CallCollect(gcTime, order, answers))
  {
    if c.closed {
      assert c.wire + [] == c.wire;
    } else {
      hide Live, Accounted, Written, NotBefore, Late, DeliverAll, Retries, Inv;
      CollectRetries(c, gcTime, order, answers);
    }
  }

  lemma CollectRetries(c: Client, gcTime: Time, order: seq<TxId>, answers: seq<Answer>)
    requires Inv(c) && !c.closed && Possible(c, CallCollect(gcTime, order, answers))
    ensures forall i :: 0 <= i < |order| ==> order[i] in c.t
    ensures Collect(c, gcTime, order, answers).wire == c.wire + Retries(c, order)
  {
    hide Live, Accounted, Written, NotBefore, Late, DeliverAll, Retries;
    var c1 := c.(agent := CollectSection(c.agent, gcTime));
    FewerRegistered(c, c1.agent);
    CollectWaiting(c, gcTime);
    DeliveriesWrite(c1, order, Expired(c.agent, gcTime), gcTime, answers);
    RetriesSame(c1, c, order);
  }

  // Writes that fail.

  /** The error of a stop for an id that the client has deleted: none if the agent had it. */
  function StopError(a: AgentState, id: TxId): Option<Error> {
    if a.closed then Some(AgentClosed) else if id in a.transactions then None else Some(TransactionNotExists)
  }

  /** A first write that fails is reported as that, together with the error of the stop if that fails too; the
      transaction is in neither map afterwards. */
  lemma FailedStart(c: Client, x: Transaction, ans: Answer)
    requires !ans.writeOk
    ensures var r := WriteStarted(c, x, ans);
            && r.err == Some(match StopError(c.agent, x.id) case None => WriteFailed case Some(e) => StopFailed(e, WriteFailed))
            && r.c.t == c.t - {x.id} && r.c.accepted == c.accepted && r.c.callbacks == c.callbacks
            && (!c.agent.closed ==> r.c.agent.transactions == c.agent.transactions - {x.id})
  {
    hide Wrote, Resend;
    FailedStop(Forget(Wrote(c, x.tag, x.raw), x.id), x.id, ans.now, ans);
    WroteKeeps(c, x.tag, x.raw);
  }

  /** A later write that fails ends the transaction with a call of its handler, with the same error. */
  lemma FailedResend(c: Client, x: Transaction, e: Event, at: Time, ans: Answer)
    requires !ans.writeOk && x.calls == 0
    ensures var d := WriteAgain(c, x, e, at, ans);
            var error := match StopError(c.agent, x.id) case None => WriteFailed case Some(e) => StopFailed(e, WriteFailed);
            && d.callbacks == c.callbacks + [Callback(x.tag, Event(e.id, Some(error)), at)] && d.t == c.t - {x.id}
            && (!c.agent.closed ==> d.agent.transactions == c.agent.transactions - {x.id})
  {
    hide Wrote, Resend, Resent;
    FailedStop(Forget(Wrote(c, x.tag, Resent(x.raw)), x.id), x.id, at, ans);
    WroteKeeps(c, x.tag, Resent(x.raw));
  }

  lemma WroteKeeps(c: Client, tag: nat, octets: Bytes)
    ensures var w := Wrote(c, tag, octets); w == c.(sent := w.sent, wire := c.wire + [octets])
  {
  }

  lemma FailedStop(c: Client, id: TxId, at: Time, ans: Answer)
    requires id !in c.t
    ensures var r := Stop(c, id, at, ans);
            && r.err == StopError(c.agent, id) && r.c.t == c.t && r.c.callbacks == c.callbacks && r.c.accepted == c.accepted
            && r.c.agent == c.agent.(transactions := if c.agent.closed then c.agent.transactions else c.agent.transactions - {id})
  {
    hide Resend;
  }

  // From any state, reachable by calls that run to completion or not.

  /** Only the first call for a transaction goes through to its handler. */
  lemma HandlerOnce(c: Client, x: Transaction, e: Event, at: Time)
    ensures Handle(c, x, e, at).callbacks == c.callbacks + if x.calls > 0 then [] else [Callback(x.tag, e, at)]
    ensures Handle(c, x, e, at) == c.(callbacks := Handle(c, x, e, at).callbacks)
  {
    assert c.callbacks + [] == c.callbacks;
  }

  /** An event for an id that is not in the map of an open client goes to its own handler, if there is one, unless it is
      that of a stop; nothing else happens. */
  lemma UnknownOutcome(c: Client, e: Event, at: Time, ans: Answer)
    requires !c.closed && e.id !in c.t
    ensures var d := HandleEvent(c, e, at, ans);
            && d == c.(unmatched := d.unmatched)
            && d.unmatched == c.unmatched + if c.hasHandler && e.error != Some(TransactionStopped) then [e] else []
  {
    assert c.unmatched + [] == c.unmatched;
  }

  /** A transaction that cannot be registered with the agent again ends with a call of its handler, with the reason, and
      nothing is written. */
  lemma RefusedResend(c: Client, e: Event, at: Time, ans: Answer)
    requires !c.closed && e.id in c.t && e.error.Some? && c.t[e.id].attempt < c.maxAttempts
    requires c.t[e.id].id == e.id && c.t[e.id].calls == 0 && (c.agent.closed || e.id in c.agent.transactions)
    ensures var d := HandleEvent(c, e, at, ans);
            && d.t == c.t - {e.id} && d.agent == c.agent && d.wire == c.wire
            && d.callbacks == c.callbacks + [Callback(c.t[e.id].tag, Event(e.id, Some(if c.agent.closed then AgentClosed else TransactionExists)), at)]
  {
    hide WriteAgain, NextTimeout;
    var y := c.t[e.id].(attempt := c.t[e.id].attempt + 1);
    assert (c.t - {e.id})[e.id := y] - {e.id} == c.t - {e.id};
  }

  /** What a closed client answers. */
  lemma ClosedAnswers(c: Client, id: TxId, raw: Bytes, withHandler: bool, ans: Answer, order: seq<TxId>, answers: seq<Answer>)
    requires |answers| == |order|
    ensures c.closed ==> Start(c, id, raw, withHandler, ans) == Result(c, Some(ClientClosed)) && Close(c, order, answers) == Result(c, Some(ClientClosed))
    ensures !c.closed ==> Close(c, order, answers).err == if c.agent.closed then Some(AgentClosed) else None
  {
    hide DeliverAll, HandleEvent;
  }

  /** A new client is open, with an open agent, has no transaction, and what it was given. */
  lemma NewClientState(rto: int, maxAttempts: nat, hasHandler: bool)
    ensures var c := NewClient(rto, maxAttempts, hasHandler);
            && c.rto == rto && c.maxAttempts == maxAttempts && c.hasHandler == hasHandler && !c.closed && !c.agent.closed
            && c.t == map[] && c.agent.transactions == map[] && c.callbacks == [] && c.unmatched == [] && c.wire == []
  {
  }

  // Deadlines.

  /** A new RTO is that of every transaction started after it, and of none before. */
  lemma SetRTOApplies(c: Client, rto: int, id: TxId, raw: Bytes, ans: Answer)
    requires Inv(c)
    ensures var s := SetRTO(c, rto);
            var r := Start(s, id, raw, true, ans);
            && s.t == c.t && s.agent == c.agent
            && (r.err.None? ==> id in r.c.t && r.c.t[id].rto == rto && id in r.c.agent.transactions && r.c.agent.transactions[id] == ans.now + rto)
  {
    hide Inv, Start;
    RTOKeeps(c, rto);
    ErrorNotAccepted(SetRTO(c, rto), id, raw, true, ans);
  }

  /** How long a transaction waits after it was written. */
  function Wait(x: Transaction): int {
    (x.attempt + 1) * x.rto
  }

  lemma WaitTried(x: Transaction)
    ensures Wait(Tried(x)) == (x.attempt + 2) * x.rto
  {
  }

  lemma WaitNew(tag: nat, id: TxId, now: Time, rto: int, raw: Bytes)
    ensures Wait(Transaction(tag, id, 0, 0, now, rto, raw)) == rto
  {
  }

  predicate Tagged(c: Client, id: TxId, tag: nat) {
    id in c.t && c.t[id].tag == tag
  }

  ghost predicate Handles(c: Client, call: Call, tag: nat) {
    call.CallCollect? && !c.agent.closed && exists k :: 0 <= k < |call.order| && Tagged(c, call.order[k], tag)
  }

  /** Where in the order of a collection a transaction is. */
  ghost function Turn(c: Client, call: Call, tag: nat): (k: nat)
    requires Handles(c, call, tag)
    ensures k < |call.order| && Tagged(c, call.order[k], tag)
  {
    var k :| 0 <= k < |call.order| && Tagged(c, call.order[k], tag);
    k
  }

  /** The time at which a call writes a transaction, if it does: that of a successful start, or what the environment
      answers when its expiry is handled. */
  ghost function WroteAt(c: Client, call: Call, tag: nat): Option<Time> {
    if Succeeds(c, call) then (if c.made == tag then Some(call.ans.now) else None)
    else if Handles(c, call, tag) && |call.answers| == |call.order| then Some(call.answers[Turn(c, call, tag)].now)
    else None
  }

  /** The deadline of a transaction after a call, from what it was and when the call wrote it. */
  ghost predicate DeadlineAfter(c: Client, call: Call, d: Client, id: TxId)
    requires id in d.t
  {
    var x, w := d.t[id], WroteAt(c, call, d.t[id].tag);
    && id in d.agent.transactions
    && if w.Some? then d.agent.transactions[id] == w.value + Wait(x)
       else id in c.t && d.t[id] == c.t[id] && id in c.agent.transactions && d.agent.transactions[id] == c.agent.transactions[id]
  }

  /** One that the call did not write. */
  lemma UntouchedDeadline(c: Client, call: Call, d: Client, id: TxId)
    requires id in d.t && id in c.t && d.t[id] == c.t[id] && WroteAt(c, call, c.t[id].tag).None?
    requires id in c.agent.transactions && id in d.agent.transactions && d.agent.transactions[id] == c.agent.transactions[id]
    ensures DeadlineAfter(c, call, d, id)
  {
    hide WroteAt;
  }

  lemma WrittenDeadline(c: Client, call: Call, d: Client, id: TxId, now: Time)
    requires id in d.t && WroteAt(c, call, d.t[id].tag) == Some(now)
    requires id in d.agent.transactions && d.agent.transactions[id] == now + Wait(d.t[id])
    ensures DeadlineAfter(c, call, d, id)
  {
    hide WroteAt, Wait;
  }

  lemma Registered(c: Client, id: TxId)
    requires Inv(c) && !c.closed && id in c.t
    ensures id in c.agent.transactions && Live(c) && !c.agent.closed
  {
    hide Live, Accounted, Written, NotBefore;
  }

  lemma StartWrites(c: Client, call: Call, tag: nat)
    requires call.CallStart?
    ensures WroteAt(c, call, tag) == if Succeeds(c, call) && c.made == tag then Some(call.ans.now) else None
  {
    hide Succeeds;
  }

  lemma StartDeadline(c: Client, call: Call, id: TxId)
    requires Inv(c) && !c.closed && call.CallStart? && id in Next(c, call).t
    ensures DeadlineAfter(c, call, Next(c, call), id)
  {
    hide Start, Inv, WroteAt, Wait, DeadlineAfter;
    var d := Next(c, call);
    ErrorNotAccepted(c, call.id, call.raw, call.withHandler, call.ans);
    StartWrites(c, call, d.t[id].tag);
    if Succeeds(c, call) && id == call.id {
      WaitNew(c.made, id, call.ans.now, c.rto, call.raw);
      WrittenDeadline(c, call, d, id, call.ans.now);
    } else {
      Registered(c, id);
      LiveTag(c, id);
      UntouchedDeadline(c, call, d, id);
    }
  }

  lemma ExpiredDeadline(c: Client, call: Call, d: Client, id: TxId, now: Time, at: Time, writeOk: bool)
    requires id in c.t && id in d.t && TimedOut(c, d, id, at, Answer(now, writeOk)) && WroteAt(c, call, c.t[id].tag) == Some(now)
    ensures DeadlineAfter(c, call, d, id)
  {
    hide WroteAt, Wait, DeadlineAfter;
    WaitTried(c.t[id]);
    WrittenDeadline(c, call, d, id, now);
  }

  lemma KeptDeadline(c: Client, call: Call, d: Client, id: TxId)
    requires id in c.agent.transactions && id in d.t && Leaves(c, d, id) && WroteAt(c, call, d.t[id].tag).None?
    ensures DeadlineAfter(c, call, d, id)
  {
    hide WroteAt, DeadlineAfter;
    UntouchedDeadline(c, call, d, id);
  }

  lemma TurnOf(c: Client, call: Call, id: TxId) returns (k: nat)
    requires call.CallCollect? && !c.agent.closed && Possible(c, call) && id in Expired(c.agent, call.gcTime)
    ensures k < |call.order| == |call.answers| && call.order[k] == id
  {
    k :| 0 <= k < |call.order| && call.order[k] == id;
  }

  lemma CollectDeadline(c: Client, call: Call, id: TxId)
    requires Inv(c) && !c.closed && call.CallCollect? && Possible(c, call) && id in Next(c, call).t
    ensures DeadlineAfter(c, call, Next(c, call), id)
  {
    var d := Next(c, call);
    hide Inv, Possible, Collect, WroteAt, DeadlineAfter, TimedOut, Leaves, Expired, Live;
    CollectOutcome(c, call.gcTime, call.order, call.answers);
    CollectKept(c, call, id);
    Registered(c, id);
    if id in Expired(c.agent, call.gcTime) {
      var k := TurnOf(c, call, id);
      WroteExpired(c, call, k);
      ExpiredDeadline(c, call, d, id, call.answers[k].now, call.gcTime, call.answers[k].writeOk);
    } else {
      CollectSame(c, call, id);
      WroteNothing(c, call, id);
      KeptDeadline(c, call, d, id);
    }
  }

  lemma CollectKept(c: Client, call: Call, id: TxId)
    requires Inv(c) && call.CallCollect? && Possible(c, call) && id in Next(c, call).t
    ensures id in c.t
  {
    hide Inv, Possible, Collect, Tried;
    CollectAttempts(c, call.gcTime, call.order, call.answers);
  }

  lemma CollectSame(c: Client, call: Call, id: TxId)
    requires Inv(c) && call.CallCollect? && Possible(c, call) && id in Next(c, call).t && id !in Expired(c.agent, call.gcTime)
    ensures id in c.t && Next(c, call).t[id] == c.t[id]
  {
    hide Inv, Possible, Collect, Tried;
    CollectAttempts(c, call.gcTime, call.order, call.answers);
  }

  lemma WroteExpired(c: Client, call: Call, k: nat)
    requires Live(c) && call.CallCollect? && !c.agent.closed && Possible(c, call) && k < |call.order| && call.order[k] in c.t
    ensures WroteAt(c, call, c.t[call.order[k]].tag) == Some(call.answers[k].now)
  {
    var tag := c.t[call.order[k]].tag;
    assert Tagged(c, call.order[k], tag);
    var j := Turn(c, call, tag);
    assert call.order[j] == call.order[k];
    assert j == k;
  }

  lemma WroteNothing(c: Client, call: Call, id: TxId)
    requires Live(c) && call.CallCollect? && !c.agent.closed && Possible(c, call) && id in c.t && id !in Expired(c.agent, call.gcTime)
    ensures WroteAt(c, call, c.t[id].tag).None?
  {
    forall k | 0 <= k < |call.order| ensures !Tagged(c, call.order[k], c.t[id].tag) {
      assert call.order[k] != id;
    }
  }

  lemma OthersWriteNothing(c: Client, call: Call, tag: nat)
    requires call.CallProcess? || call.CallSetRTO?
    ensures WroteAt(c, call, tag).None?
  {
  }

  lemma OtherDeadline(c: Client, call: Call, id: TxId)
    requires Inv(c) && !c.closed && (call.CallProcess? || call.CallSetRTO?) && id in Next(c, call).t
    ensures DeadlineAfter(c, call, Next(c, call), id)
  {
    hide Inv, Process, WroteAt, DeadlineAfter;
    if call.CallProcess? {
      ProcessOutcome(c, call.id, call.ans);
      ProcessAttempts(c, call.id, call.ans);
    }
    Registered(c, id);
    OthersWriteNothing(c, call, c.t[id].tag);
    UntouchedDeadline(c, call, Next(c, call), id);
  }

  lemma NextDeadline(c: Client, call: Call, id: TxId)
    requires Inv(c) && Possible(c, call) && !Next(c, call).closed && id in Next(c, call).t
    ensures !c.closed && DeadlineAfter(c, call, Next(c, call), id)
  {
    StillOpen(c, call);
    hide Inv, Next, Possible, DeadlineAfter;
    match call {
      case CallStart(_, _, _, _) => StartDeadline(c, call, id);
      case CallCollect(_, _, _) => CollectDeadline(c, call, id);
      case CallProcess(_, _) => OtherDeadline(c, call, id);
      case CallSetRTO(_) => OtherDeadline(c, call, id);
    }
  }

  lemma StillOpen(c: Client, call: Call)
    requires Inv(c) && Possible(c, call) && !Next(c, call).closed
    ensures !c.closed && !call.CallClose?
  {
    if c.closed {
      ClosedStep(c, call);
    } else if call.CallClose? {
      hide Inv, Close;
      CloseKeeps(c, call.order, call.answers);
    }
  }

  /** The time of the last write of a transaction in the first `n` calls of a run. */
  ghost function LastWrite(states: seq<Client>, calls: seq<Call>, n: nat, tag: nat): Time
    requires n <= |calls| < |states|
  {
    if n == 0 then 0
    else
      var w := WroteAt(states[n - 1], calls[n - 1], tag);
      if w.Some? then w.value else LastWrite(states, calls, n - 1, tag)
  }

  lemma NothingYet(states: seq<Client>, calls: seq<Call>, maxAttempts: nat)
    requires IsClientRun(states, calls, maxAttempts)
    ensures |states| == |calls| + 1 && states[0].t == map[]
  {
  }

  lemma DeadlineStep(states: seq<Client>, calls: seq<Call>, maxAttempts: nat, n: nat, id: TxId)
    requires IsClientRun(states, calls, maxAttempts) && 0 < n < |states| == |calls| + 1 && !states[n].closed && id in states[n].t
    ensures !states[n - 1].closed && DeadlineAfter(states[n - 1], calls[n - 1], states[n], id)
  {
    hide IsClientRun, Inv, Next, Possible, DeadlineAfter;
    StepAt(states, calls, maxAttempts, n - 1);
    InvAt(states, calls, maxAttempts, n - 1);
    NextDeadline(states[n - 1], calls[n - 1], id);
  }

  lemma {:induction false} DeadlineAt(states: seq<Client>, calls: seq<Call>, maxAttempts: nat, n: nat, id: TxId)
    requires IsClientRun(states, calls, maxAttempts) && n < |states| == |calls| + 1 && !states[n].closed && id in states[n].t
    ensures var x := states[n].t[id];
            id in states[n].agent.transactions && states[n].agent.transactions[id] == LastWrite(states, calls, n, x.tag) + Wait(x)
    decreases n
  {
    hide IsClientRun, WroteAt, Wait;
    NothingYet(states, calls, maxAttempts);
    DeadlineStep(states, calls, maxAttempts, n, id);
    if WroteAt(states[n - 1], calls[n - 1], states[n].t[id].tag).None? {
      DeadlineAt(states, calls, maxAttempts, n - 1, id);
    }
  }

  /** In every run, the deadline of a transaction is the time of its last write plus as many RTOs as it was written, and
      a collection takes it if and only if it comes after that. */
  lemma DeadlineExact(states: seq<Client>, calls: seq<Call>, maxAttempts: nat, n: nat, id: TxId, gcTime: Time)
    requires IsClientRun(states, calls, maxAttempts) && n < |states| && !states[n].closed && id in states[n].t
    ensures |states| == |calls| + 1
    ensures var c := states[n];
            var due := LastWrite(states, calls, n, c.t[id].tag) + (c.t[id].attempt + 1) * c.t[id].rto;
            && id in c.agent.transactions && c.agent.transactions[id] == due
            && (id in Expired(c.agent, gcTime) <==> due < gcTime)
  {
    NothingYet(states, calls, maxAttempts);
    hide IsClientRun, LastWrite;
    DeadlineAt(states, calls, maxAttempts, n, id);
  }
}
