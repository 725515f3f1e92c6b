/** The client as an object over the agent. Every method is proved to take the state where the machine of
    `ClientSpec` does, whatever the state was. */
module ClientObject {
  import opened Base
  import opened Wire
  import opened Slices
  import opened Messages
  import opened AgentSpec
  import AgentObject
  import Proofs = ClientProofs
  import Spec = ClientSpec

  /** A transaction in progress, with its own copy of the message. Objects are not reused. */
  class ClientTransaction {
    const tag: nat
    const id: TxId
    var attempt: nat
    var calls: nat
    const start: Time
    const rto: int
    const raw: Slice<byte>
    ghost const octets: Bytes

    constructor (tag: nat, id: TxId, start: Time, rto: int, raw: Slice<byte>)
      requires raw.Valid()
      ensures Value() == Spec.Transaction(tag, id, 0, 0, start, rto, raw.View()) && this.raw == raw && Intact()
    {
      this.tag, this.id, this.start, this.rto, this.raw, this.octets := tag, id, start, rto, raw, raw.View();
      attempt, calls := 0, 0;
    }

    ghost function Value(): Spec.Transaction
      reads this
    {
      Spec.Transaction(tag, id, attempt, calls, start, rto, octets)
    }

    /** The copy of the message is as it was made. */
    ghost predicate Intact()
      reads raw.arr
    {
      raw.Valid() && raw.View() == octets
    }

    /** Whether this call is the one that reaches the handler. */
    method Handle() returns (first: bool)
      modifies this`calls
      ensures first == (old(calls) == 0) && calls == old(calls) + 1
    {
      calls := calls + 1;
      first := calls == 1;
    }

    function NextTimeout(now: Time): (r: Time)
      reads this
      ensures r == Spec.NextTimeout(Value(), now)
    {
      now + (attempt + 1) * rto
    }
  }

  /** A source of times that never goes back. */
  class Clock {
    var last: Time

    constructor (now: Time)
      ensures last == now
    {
      last := now;
    }

    method Now() returns (now: Time)
      modifies this
      ensures old(last) <= now == last
    {
      now :| last <= now;
      last := now;
    }
  }

  /** A connection; any write may fail. */
  class Connection {
    ghost var written: seq<Bytes>

    constructor ()
      ensures written == []
    {
      written := [];
    }

    method Write(octets: Bytes) returns (ok: bool)
      modifies this
      ensures written == old(written) + [octets]
    {
      written := written + [octets];
      ok := *;
    }
  }

  /** Copies as much of a message as fits in a pooled buffer, over whatever it held. */
  method FillBuffer(buf: array<byte>, raw: Bytes) returns (n: nat)
    requires buf.Length == Spec.RESEND_CAPACITY
    modifies buf
    ensures n <= buf.Length && buf[..n] == Spec.Resent(raw)
  {
    n := Min(buf.Length, |raw|);
    forall i | 0 <= i < n {
      buf[i] := raw[i];
    }
  }

  /** A copy of a message in an array of its own. */
  method CopyRaw(raw: Bytes) returns (r: Slice<byte>)
    ensures r.Valid() && fresh(r.arr) && r.View() == raw
  {
    var store := new byte[1500](_ => 0);
    r := Append(Slice(store, 0, 0, 1500), raw, 0);
  }

  method NewTransaction(tag: nat, id: TxId, now: Time, rto: int, raw: Bytes) returns (x: ClientTransaction)
    ensures fresh(x) && fresh(x.raw.arr) && x.Intact() && x.Value() == Spec.Transaction(tag, id, 0, 0, now, rto, raw)
  {
    var copy := CopyRaw(raw);
    x := new ClientTransaction(tag, id, now, rto, copy);
  }

  ghost function Values(t: map<TxId, ClientTransaction>): map<TxId, Spec.Transaction>
    reads set id | id in t :: t[id]
  {
    map id | id in t :: t[id].Value()
  }

  class Client {
    const a: AgentObject.Agent
    const conn: Connection
    const clock: Clock
    const buf: array<byte>
    const maxAttempts: nat
    const hasHandler: bool
    var closed: bool
    var rto: int
    var t: map<TxId, ClientTransaction>

    // History.
    var made: nat
    ghost var accepted: map<nat, Spec.Accepted>
    ghost var callbacks: seq<Spec.Callback>
    ghost var sent: map<nat, seq<Bytes>>
    ghost var unmatched: seq<Event>

    /** Transactions are filed under their own ids, so no object is there twice. */
    ghost predicate Valid()
      reads this, set id | id in t :: t[id], set id | id in t :: t[id].raw.arr
    {
      buf.Length == Spec.RESEND_CAPACITY && forall id :: id in t ==> t[id].id == id && Owns(t[id])
    }

    /** The copy of the message is whole and not in the buffer for sending again. */
    ghost predicate Owns(x: ClientTransaction)
      reads x.raw.arr
    {
      x.raw.arr != buf && x.Intact()
    }

    /** The octets of the copy. */
    method Read(x: ClientTransaction) returns (octets: Bytes)
      requires Owns(x)
      ensures octets == x.octets
    {
      octets := x.raw.View();
    }

    ghost function State(): Spec.Client
      reads this, a, conn, set id | id in t :: t[id]
    {
      Spec.Client(a.State(), closed, Values(t), rto, maxAttempts, hasHandler, made, accepted, callbacks, sent, unmatched, conn.written)
    }

    constructor (rto: int, maxAttempts: nat, hasHandler: bool, now: Time)
      ensures Valid() && State() == Spec.NewClient(rto, maxAttempts, hasHandler)
      ensures t == map[] && fresh(a) && fresh(conn) && fresh(clock) && fresh(buf)
    {
      a := new AgentObject.Agent(1);
      conn := new Connection();
      clock := new Clock(now);
      buf := new byte[Spec.RESEND_CAPACITY](_ => 0);
      this.rto, this.maxAttempts, this.hasHandler := rto, maxAttempts, hasHandler;
      closed, t := false, map[];
      made, accepted, callbacks, sent, unmatched := 0, map[], [], map[], [];
    }

    /** Enters a transaction in the map. */
    method StartTransaction(x: ClientTransaction) returns (err: Option<Error>)
      requires Valid() && Owns(x)
      modifies this`t
      ensures Valid()
      ensures Spec.Result(State(), err) == Spec.Register(old(State()), x.Value())
      ensures t == if err.None? then old(t)[x.id := x] else old(t)
    {
      hide ClientTransaction.Intact;
      if closed {
        return Some(ClientClosed);
      }
      if x.id in t {
        return Some(TransactionExists);
      }
      t := t[x.id := x];
      err := None;
      assert Values(t) == old(Values(t))[x.id := x.Value()];
    }

    method Delete(id: TxId)
      requires Valid()
      modifies this`t
      ensures Valid() && t == old(t) - {id} && State() == Spec.Forget(old(State()), id)
    {
      hide ClientTransaction.Intact;
      t := t - {id};
      assert Values(t) == old(Values(t)) - {id};
    }

    method CallHandler(x: ClientTransaction, ghost e: Event, ghost at: Time)
      requires Valid() && (x.id in t ==> t[x.id] != x)
      modifies x`calls, this`callbacks
      ensures Valid() && State() == Spec.Handle(old(State()), old(x.Value()), e, at)
    {
      hide ClientTransaction.Intact;
      var first := x.Handle();
      if first {
        callbacks := callbacks + [Spec.Callback(x.tag, e, at)];
      }
      assert Values(t) == old(Values(t));
    }

    // Events.

    /** The agent hands an event to the client. */
    method HandleAgentCallback(e: Event, ghost at: Time) returns (ghost ans: Spec.Answer)
      requires Valid()
      modifies this, a, clock, conn, buf, if e.id in t then {t[e.id]} else {}
      ensures Valid() && State() == Spec.HandleEvent(old(State()), e, at, ans)
      ensures forall id :: id in t ==> id in old(t) && t[id] == old(t)[id]
      ensures old(clock.last) <= ans.now <= clock.last
      ensures e.id !in old(t) ==> t == old(t)
      ensures e.error.None? ==> ans.now == old(clock.last)
      decreases if e.id in t then 3 else 0
    {
      hide ClientTransaction.Intact, Spec.Resend, Spec.Handle;
      ans := Spec.Answer(clock.last, true);
      if closed {
        return;
      }
      if e.id !in t {
        if hasHandler && e.error != Some(TransactionStopped) {
          unmatched := unmatched + [e];
        }
        return;
      }
      ans := HandleFound(t[e.id], e, at);
    }

    /** The event of a transaction in the map. */
    method HandleFound(x: ClientTransaction, e: Event, ghost at: Time) returns (ghost ans: Spec.Answer)
      requires Valid() && !closed && e.id in t && t[e.id] == x
      modifies this, a, clock, conn, buf, x
      ensures Valid() && State() == Spec.HandleEvent(old(State()), e, at, ans)
      ensures forall id :: id in t ==> id in old(t) && t[id] == old(t)[id]
      ensures old(clock.last) <= ans.now <= clock.last
      ensures e.error.None? ==> ans.now == old(clock.last)
      decreases 2, 1
    {
      hide ClientTransaction.Intact, Spec.Resend, Spec.Handle, Spec.Forget;
      ans := Spec.Answer(clock.last, true);
      Delete(e.id);
      if maxAttempts <= x.attempt || e.error.None? {
        CallHandler(x, e, at);
        return;
      }
      CountAttempt(x);
      ans := ResendTransaction(x, e, at);
    }

    /** One more attempt of a transaction that is not in the map. */
    method CountAttempt(x: ClientTransaction)
      requires Valid() && x.id !in t
      modifies x`attempt
      ensures Valid() && State() == old(State()) && x.Value() == old(x.Value()).(attempt := old(x.attempt) + 1)
    {
      hide ClientTransaction.Intact;
      x.attempt := x.attempt + 1;
      assert Values(t) == old(Values(t));
    }

    /** Puts a transaction back in both maps and writes its message again. */
    method ResendTransaction(x: ClientTransaction, e: Event, ghost at: Time) returns (ghost ans: Spec.Answer)
      requires Valid() && x.id !in t && Owns(x)
      modifies this, a, clock, conn, buf, x`calls
      ensures Valid() && State() == Spec.Resend(old(State()), old(x.Value()), e, at, ans)
      ensures forall id :: id in t ==> if id == x.id then t[id] == x else id in old(t) && t[id] == old(t)[id]
      ensures old(clock.last) <= ans.now <= clock.last
      decreases 2, 0
    {
      hide ClientTransaction.Intact, Spec.Register, Spec.AgentStart, Spec.Handle, Spec.WriteAgain, Spec.Forget, Spec.Resent, Spec.NextTimeout;
      var octets, now, timeOut := PrepareResend(x);
      ans := Spec.Answer(now, true);
      var err := StartTransaction(x);
      if err.Some? {
        FailResend(x, e.(error := err), at);
        return;
      }
      err := StartAgent(x.id, timeOut);
      if err.Some? {
        FailResend(x, e.(error := err), at);
        return;
      }
      ans := WriteAgain(x, octets, e, at, now);
    }

    /** The octets to write, from a pooled buffer, the time, and the next deadline. */
    method PrepareResend(x: ClientTransaction) returns (octets: Bytes, now: Time, timeOut: Time)
      requires Valid() && Owns(x)
      modifies buf, clock
      ensures Valid() && State() == old(State()) && x.Value() == old(x.Value())
      ensures octets == Spec.Resent(x.octets) && timeOut == Spec.NextTimeout(x.Value(), now)
      ensures old(clock.last) <= now == clock.last
    {
      hide ClientTransaction.Intact, Spec.Resent, Spec.NextTimeout;
      var raw := Read(x);
      var n := FillBuffer(buf, raw);
      octets := buf[..n];
      now := clock.Now();
      timeOut := x.NextTimeout(now);
      assert Values(t) == old(Values(t));
    }

    method StartAgent(id: TxId, deadline: Time) returns (err: Option<Error>)
      requires Valid()
      modifies a
      ensures Valid() && Spec.Result(State(), err) == Spec.AgentStart(old(State()), id, deadline)
    {
      err := a.Start(id, deadline);
    }

    method FailResend(x: ClientTransaction, ghost e: Event, ghost at: Time)
      requires Valid()
      modifies this`t, this`callbacks, x`calls
      ensures Valid() && State() == Spec.Handle(Spec.Forget(old(State()), x.id), old(x.Value()), e, at)
      ensures t == old(t) - {x.id}
    {
      hide ClientTransaction.Intact, Spec.Handle, Spec.Forget;
      Delete(x.id);
      CallHandler(x, e, at);
    }

    /** Writes the octets; if that fails, takes the transaction out of both maps and calls its handler. */
    method WriteAgain(x: ClientTransaction, octets: Bytes, e: Event, ghost at: Time, ghost now: Time) returns (ghost ans: Spec.Answer)
      requires Valid() && Owns(x) && octets == Spec.Resent(x.octets)
      modifies this, a, clock, conn, buf, x`calls
      ensures Valid() && State() == Spec.WriteAgain(old(State()), old(x.Value()), e, at, ans)
      ensures t == if ans.writeOk then old(t) else old(t) - {x.id}
      ensures ans.now == now && old(clock.last) <= clock.last
      decreases 1, 1
    {
      hide ClientTransaction.Intact, Spec.Handle, Spec.Stop, Spec.Wrote, Spec.Forget, Spec.Resent;
      var ok := WriteFor(x.tag, octets);
      ans := Spec.Answer(now, ok);
      if !ok {
        Delete(x.id);
        var stopErr := StopAgent(x.id, at);
        CallHandler(x, e.(error := Some(Spec.Cause(stopErr))), at);
      }
    }

    method WriteFor(ghost tag: nat, octets: Bytes) returns (ok: bool)
      requires Valid()
      modifies conn, this`sent
      ensures Valid() && State() == Spec.Wrote(old(State()), tag, octets)
    {
      hide ClientTransaction.Intact;
      ok := conn.Write(octets);
      sent := sent[tag := (if tag in sent then sent[tag] else []) + [octets]];
    }

    /** Stops a transaction of the agent, which calls straight back. */
    method StopAgent(id: TxId, ghost at: Time) returns (err: Option<Error>)
      requires Valid() && id !in t
      modifies this, a, clock, conn, buf
      ensures Valid() && t == old(t)
      ensures forall ans :: Spec.Result(State(), err) == Spec.Stop(old(State()), id, at, ans)
      ensures old(clock.last) <= clock.last
      decreases 1, 0
    {
      err := a.StopLocked(id);
      if err.None? {
        ghost var ans := HandleAgentCallback(Event(id, Some(TransactionStopped)), at);
      }
    }

    // Calls.

    /** Starts a transaction, if there is a handler for it, and writes the message. */
    method Start(msg: Message, withHandler: bool) returns (err: Option<Error>, ghost ans: Spec.Answer)
      requires Valid() && msg.raw.Valid() && msg.raw.arr != buf
      modifies this, a, clock, conn, buf
      ensures Valid() && forall id :: id in t ==> (id in old(t) && t[id] == old(t)[id]) || (fresh(t[id]) && fresh(t[id].raw.arr))
      ensures Spec.Result(State(), err) == Spec.Start(old(State()), msg.transactionID, old(msg.raw.View()), withHandler, ans)
      ensures old(clock.last) <= ans.now
    {
      hide ClientTransaction.Intact, Spec.Register, Spec.AgentStart, Spec.NextTimeout, Spec.WriteStarted;
      ans := Spec.Answer(clock.last, true);
      if closed {
        return Some(ClientClosed), ans;
      }
      if withHandler {
        err, ans := StartWithHandler(msg.transactionID, msg.raw.View());
      } else {
        var ok := conn.Write(msg.raw.View());
        ans := Spec.Answer(clock.last, ok);
        err := if ok then None else Some(WriteFailed);
      }
    }

    method StartWithHandler(id: TxId, raw: Bytes) returns (err: Option<Error>, ghost ans: Spec.Answer)
      requires Valid() && !closed
      modifies this, a, clock, conn, buf
      ensures Valid() && forall id :: id in t ==> (id in old(t) && t[id] == old(t)[id]) || (fresh(t[id]) && fresh(t[id].raw.arr))
      ensures Spec.Result(State(), err) == Spec.Start(old(State()), id, raw, true, ans)
      ensures old(clock.last) <= ans.now
    {
      hide ClientTransaction.Intact, Spec.Register, Spec.AgentStart, Spec.NextTimeout, Spec.WriteStarted;
      var x, now := MakeTransaction(id, raw);
      ans := Spec.Answer(now, true);
      err := StartTransaction(x);
      if err.Some? {
        return;
      }
      err := StartAgent(id, x.NextTimeout(now));
      if err.Some? {
        return;
      }
      err, ans := WriteStarted(x, now);
    }

    method WriteStarted(x: ClientTransaction, now: Time) returns (err: Option<Error>, ghost ans: Spec.Answer)
      requires Valid() && Owns(x)
      modifies this, a, clock, conn, buf
      ensures Valid() && ans.now == now && forall id :: id in t ==> id in old(t) && t[id] == old(t)[id]
      ensures Spec.Result(State(), err) == Spec.WriteStarted(old(State()), old(x.Value()), ans)
    {
      hide ClientTransaction.Intact, Spec.Wrote, Spec.Forget, Spec.Stop;
      var octets := Read(x);
      var ok := WriteFor(x.tag, octets);
      ans := Spec.Answer(now, ok);
      err := None;
      if ok {
        accepted := accepted[x.tag := Spec.Accepted(x.id, x.start, x.rto, x.octets)];
      } else {
        Delete(x.id);
        var stopErr := StopAgent(x.id, now);
        err := Some(Spec.Cause(stopErr));
      }
    }

    method MakeTransaction(id: TxId, raw: Bytes) returns (x: ClientTransaction, now: Time)
      requires Valid()
      modifies this`made, clock
      ensures Valid() && State() == old(State()).(made := old(made) + 1) && t == old(t)
      ensures fresh(x) && fresh(x.raw.arr) && Owns(x) && x.Value() == Spec.Transaction(old(made), id, 0, 0, now, rto, raw)
      ensures old(clock.last) <= now == clock.last
    {
      hide ClientTransaction.Intact, Values;
      now := clock.Now();
      x := NewTransaction(made, id, now, rto, raw);
      made := made + 1;
    }

    method SetRTO(rto: int)
      requires Valid()
      modifies this`rto
      ensures Valid() && State() == Spec.SetRTO(old(State()), rto)
    {
      this.rto := rto;
    }

    /** A message comes in. */
    method Process(id: TxId) returns (err: Option<Error>, ghost ans: Spec.Answer)
      requires Valid()
      modifies this, a, clock, conn, buf, set x | x in t :: t[x]
      ensures Valid() && State() == Spec.Process(old(State()), id, ans)
      ensures err == if old(a.closed) then Some(AgentClosed) else None
      ensures forall x :: x in t ==> x in old(t) && t[x] == old(t)[x]
    {
      hide ClientTransaction.Intact, Spec.HandleEvent;
      ans := Spec.Answer(clock.last, true);
      err := a.ProcessLocked(id);
      assert Values(t) == old(Values(t));
      if err.None? {
        ans := HandleAgentCallback(Event(id, None), clock.last);
      }
    }

    /** One tick of the collector: takes what has expired from the agent and handles each. */
    method Collect() returns (gcTime: Time, err: Option<Error>, ghost order: seq<TxId>, ghost answers: seq<Spec.Answer>)
      requires Valid()
      modifies this, a, clock, conn, buf, set x | x in t :: t[x]
      ensures Valid() && |answers| == |order|
      ensures forall x :: x in t ==> x in old(t) && t[x] == old(t)[x]
      ensures State() == Spec.Collect(old(State()), gcTime, order, answers)
      ensures err == if old(a.closed) then Some(AgentClosed) else None
      ensures Spec.Possible(old(State()), Spec.CallCollect(gcTime, order, answers)) && old(clock.last) <= gcTime
    {
      hide ClientTransaction.Intact, Spec.HandleEvent, Spec.DeliverAll;
      gcTime := clock.Now();
      var toRemove;
      toRemove, err := a.CollectLocked(gcTime);
      order, answers := toRemove, [];
      if err.None? {
        answers := Deliver(toRemove, TransactionTimeOut, gcTime);
      }
    }

    /** Hands the client one event after another. */
    method Deliver(ids: seq<TxId>, error: Error, ghost at: Time) returns (ghost answers: seq<Spec.Answer>)
      requires Valid()
      modifies this, a, clock, conn, buf, set x | x in t :: t[x]
      ensures Valid() && |answers| == |ids|
      ensures forall x :: x in t ==> x in old(t) && t[x] == old(t)[x]
      ensures State() == Spec.DeliverAll(old(State()), ids, error, at, answers)
      ensures forall i :: 0 <= i < |answers| ==> old(clock.last) <= answers[i].now
    {
      hide ClientTransaction.Intact, Spec.HandleEvent, Spec.DeliverAll;
      ghost var c := State();
      answers := [];
      DeliverNone(c, error, at);
      for i := 0 to |ids|
        invariant Valid() && |answers| == i && old(clock.last) <= clock.last
        invariant forall id :: id in t ==> id in old(t) && t[id] == old(t)[id]
        invariant State() == Spec.DeliverAll(c, ids[..i], error, at, answers)
        invariant forall k :: 0 <= k < i ==> old(clock.last) <= answers[k].now
      {
        ghost var ans := HandleAgentCallback(Event(ids[i], Some(error)), at);
        TakeNext(ids, i);
        DeliverSnoc(c, ids[..i], ids[i], error, at, answers, ans);
        answers := answers + [ans];
      }
      assert ids[..|ids|] == ids;
    }

    /** Closes the client, then the agent, which reports what it had to a client that no longer listens. */
    method Close() returns (err: Option<Error>, ghost order: seq<TxId>, ghost answers: seq<Spec.Answer>)
      requires Valid()
      modifies this, a, clock, conn, buf, set x | x in t :: t[x]
      ensures Valid() && |answers| == |order|
      ensures forall x :: x in t ==> x in old(t) && t[x] == old(t)[x]
      ensures Spec.Result(State(), err) == Spec.Close(old(State()), order, answers)
      ensures Spec.Possible(old(State()), Spec.CallClose(order, answers))
    {
      hide ClientTransaction.Intact, Spec.HandleEvent, Spec.DeliverAll;
      order, answers := [], [];
      if closed {
        return Some(ClientClosed), order, answers;
      }
      closed := true;
      if a.closed {
        return Some(AgentClosed), order, answers;
      }
      var ids := a.Registered();
      order := ids;
      assert State() == old(State()).(closed := true);
      answers := Deliver(ids, AgentClosed, 0);
      Proofs.ClosedIgnores(old(State()).(closed := true), order, AgentClosed, 0, answers);
      CloseAgent();
      err := None;
    }

    method CloseAgent()
      requires Valid() && !a.closed
      modifies a
      ensures Valid() && State() == old(State()).(agent := CloseSection(old(a.State())))
    {
      a.CloseLocked();
      assert Values(t) == old(Values(t));
    }
  }

  lemma DeliverNone(c: Spec.Client, error: Error, at: Time)
    ensures forall ids: seq<TxId>, answers: seq<Spec.Answer> :: ids == [] && answers == [] ==> Spec.DeliverAll(c, ids, error, at, answers) == c
  {
  }

  lemma {:induction false} DeliverSnoc(c: Spec.Client, ids: seq<TxId>, id: TxId, error: Error, at: Time, answers: seq<Spec.Answer>, ans: Spec.Answer)
    requires |ids| == |answers|
    ensures Spec.DeliverAll(c, ids + [id], error, at, answers + [ans])
         == Spec.HandleEvent(Spec.DeliverAll(c, ids, error, at, answers), Event(id, Some(error)), at, ans)
    decreases |ids|
  {
    hide Spec.HandleEvent;
    if ids == [] {
      assert ids + [id] == [id] && answers + [ans] == [ans];
    } else {
      DeliverSnoc(Spec.HandleEvent(c, Event(ids[0], Some(error)), at, answers[0]), ids[1..], id, error, at, answers[1..], ans);
      assert (ids + [id])[1..] == ids[1..] + [id] && (answers + [ans])[1..] == answers[1..] + [ans];
    }
  }
}
