/** A client and its agent as one machine. Every call of the client, every collection and every
    incoming message runs to completion, events included, before the next. */
module ClientSpec {
  import opened Base
  import opened Wire
  import opened AgentSpec

  /** The size of the pooled buffers that messages are sent again from. */
  const RESEND_CAPACITY: nat := 2048

  /** A transaction in progress. `tag` tells apart transactions that use the same id one after another;
      it also names the handler of the transaction. */
  datatype Transaction = Transaction(tag: nat, id: TxId, attempt: nat, calls: nat, start: Time, rto: int, raw: Bytes)

  /** A call of `Start` that returned without an error. */
  datatype Accepted = Accepted(id: TxId, start: Time, rto: int, raw: Bytes)

  /** A call of the handler of a transaction. For a time-out, `at` is the time of the collection. */
  datatype Callback = Callback(tag: nat, event: Event, at: Time)

  datatype Client = Client(
    // the agent and the client
    agent: AgentState, closed: bool, t: map<TxId, Transaction>, rto: int, maxAttempts: nat, hasHandler: bool,
    // what has happened: how many transactions were made, those accepted, the calls of their handlers,
    // the octets written for each, the events given to the handler of the client, and all that was given to
    // the connection
    made: nat, accepted: map<nat, Accepted>, callbacks: seq<Callback>, sent: map<nat, seq<Bytes>>, unmatched: seq<Event>,
    wire: seq<Bytes>)

  /** What the environment answers while an event is handled: the time and whether a write succeeds. */
  datatype Answer = Answer(now: Time, writeOk: bool)

  datatype Result = Result(c: Client, err: Option<Error>)

  function NewClient(rto: int, maxAttempts: nat, hasHandler: bool): Client {
    Client(AgentState(false, map[], 1), false, map[], rto, maxAttempts, hasHandler, 0, map[], [], map[], [], [])
  }

  // Parts of the client.

  function NextTimeout(x: Transaction, now: Time): Time {
    now + (x.attempt + 1) * x.rto
  }

  /** Enters a transaction in the map of the client. */
  function Register(c: Client, x: Transaction): Result {
    if c.closed then Result(c, Some(ClientClosed))
    else if x.id in c.t then Result(c, Some(TransactionExists))
    else Result(c.(t := c.t[x.id := x]), None)
  }

  function Forget(c: Client, id: TxId): Client {
    c.(t := c.t - {id})
  }

  function AgentStart(c: Client, id: TxId, deadline: Time): Result {
    var r := StartSection(c.agent, id, deadline);
    Result(c.(agent := r.a), r.err)
  }

  /** Only the first call for a transaction reaches its handler. */
  function Handle(c: Client, x: Transaction, e: Event, at: Time): Client {
    if x.calls == 0 then c.(callbacks := c.callbacks + [Callback(x.tag, e, at)]) else c
  }

  function Wrote(c: Client, tag: nat, octets: Bytes): Client {
    c.(sent := c.sent[tag := (if tag in c.sent then c.sent[tag] else []) + [octets]], wire := c.wire + [octets])
  }

  /** What fits in a pooled buffer. */
  function Resent(raw: Bytes): Bytes {
    raw[..Min(RESEND_CAPACITY, |raw|)]
  }

  // Events.

  /** The client's side of an event. A time-out either ends the transaction or puts it back in both maps
      and sends it again; if that fails the maps are restored and the handler is called. */
  function HandleEvent(c: Client, e: Event, at: Time, ans: Answer): Client
    decreases if e.id in c.t then 3 else 0
  {
    if c.closed then c
    else if e.id !in c.t then
      if c.hasHandler && e.error != Some(TransactionStopped) then c.(unmatched := c.unmatched + [e]) else c
    else
      var x := c.t[e.id];
      var c1 := Forget(c, e.id);
      if c.maxAttempts <= x.attempt || e.error.None? then Handle(c1, x, e, at)
      else
        Resend(c1, x.(attempt := x.attempt + 1), e, at, ans)
  }

  function Resend(c: Client, x: Transaction, e: Event, at: Time, ans: Answer): Client
    decreases 2
  {
    var registered := Register(c, x);
    if registered.err.Some? then Handle(Forget(registered.c, x.id), x, e.(error := registered.err), at)
    else
      var started := AgentStart(registered.c, x.id, NextTimeout(x, ans.now));
      if started.err.Some? then Handle(Forget(started.c, x.id), x, e.(error := started.err), at)
      else WriteAgain(started.c, x, e, at, ans)
  }

  function WriteAgain(c: Client, x: Transaction, e: Event, at: Time, ans: Answer): Client
    decreases 1, 1
  {
    var c1 := Wrote(c, x.tag, Resent(x.raw));
    if ans.writeOk then c1
    else
      var stopped := Stop(Forget(c1, x.id), x.id, at, ans);
      Handle(stopped.c, x, e.(error := Some(Cause(stopped.err))), at)
  }

  /** The error of a failed write, wrapped if the agent's transaction could not be stopped either. */
  function Cause(stopErr: Option<Error>): Error {
    if stopErr.Some? then StopFailed(stopErr.value, WriteFailed) else WriteFailed
  }

  /** Stops a transaction of the agent, which hands the event straight back to the client. */
  function Stop(c: Client, id: TxId, at: Time, ans: Answer): Result
    requires id !in c.t
    decreases 1, 0
  {
    var r := StopSection(c.agent, id);
    var c1 := c.(agent := r.a);
    if r.err.Some? then Result(c1, r.err)
    else Result(HandleEvent(c1, Event(id, Some(TransactionStopped)), at, ans), None)
  }

  // Calls.

  /** Starts a transaction, if a handler is given, and writes the message. */
  function Start(c: Client, id: TxId, raw: Bytes, withHandler: bool, ans: Answer): Result {
    if c.closed then Result(c, Some(ClientClosed))
    else if !withHandler then Result(c.(wire := c.wire + [raw]), if ans.writeOk then None else Some(WriteFailed))
    else
      var x := Transaction(c.made, id, 0, 0, ans.now, c.rto, raw);
      var registered := Register(c.(made := c.made + 1), x);
      if registered.err.Some? then registered
      else
        var started := AgentStart(registered.c, id, NextTimeout(x, x.start));
        if started.err.Some? then started else WriteStarted(started.c, x, ans)
  }

  /** Writes the message of a transaction that is in both maps, or takes it out again. */
  function WriteStarted(c: Client, x: Transaction, ans: Answer): Result {
    var c1 := Wrote(c, x.tag, x.raw);
    if ans.writeOk then Result(c1.(accepted := c1.accepted[x.tag := Accepted(x.id, x.start, x.rto, x.raw)]), None)
    else
      var stopped := Stop(Forget(c1, x.id), x.id, ans.now, ans);
      Result(stopped.c, Some(Cause(stopped.err)))
  }

  function DeliverAll(c: Client, order: seq<TxId>, error: Error, at: Time, answers: seq<Answer>): Client
    requires |answers| == |order|
    decreases |order|
  {
    if order == [] then c
    else DeliverAll(HandleEvent(c, Event(order[0], Some(error)), at, answers[0]), order[1..], error, at, answers[1..])
  }

  /** Collects what has expired and hands each to the client. */
  function Collect(c: Client, gcTime: Time, order: seq<TxId>, answers: seq<Answer>): Client
    requires |answers| == |order|
  {
    if c.agent.closed then c
    else DeliverAll(c.(agent := CollectSection(c.agent, gcTime)), order, TransactionTimeOut, gcTime, answers)
  }

  /** A message with transaction id `id` comes in. */
  function Process(c: Client, id: TxId, ans: Answer): Client {
    if c.agent.closed then c
    else HandleEvent(c.(agent := ProcessSection(c.agent, id)), Event(id, None), ans.now, ans)
  }

  function SetRTO(c: Client, rto: int): Client {
    c.(rto := rto)
  }

  /** The client is closed first, so it ignores the events the agent makes when it closes. */
  function Close(c: Client, order: seq<TxId>, answers: seq<Answer>): Result
    requires |answers| == |order|
  {
    if c.closed then Result(c, Some(ClientClosed))
    else
      var c1 := c.(closed := true);
      if c1.agent.closed then Result(c1, Some(AgentClosed))
      else
        var c2 := DeliverAll(c1, order, AgentClosed, 0, answers);
        Result(c2.(agent := CloseSection(c2.agent)), None)
  }

  // Runs.

  datatype Call =
    | CallStart(id: TxId, raw: Bytes, withHandler: bool, ans: Answer)
    | CallCollect(gcTime: Time, order: seq<TxId>, answers: seq<Answer>)
    | CallProcess(id: TxId, ans: Answer)
    | CallSetRTO(rto: int)
    | CallClose(order: seq<TxId>, answers: seq<Answer>)

  /** A collection, and a close, visits its transactions in some order; no time read while the events of a
      collection are handled is before the time of the collection. */
  ghost predicate Possible(c: Client, call: Call) {
    match call
    case CallCollect(gcTime, order, answers) =>
      && |answers| == |order| && (forall i :: 0 <= i < |answers| ==> gcTime <= answers[i].now)
      && (!c.agent.closed ==> Enumerates(order, Expired(c.agent, gcTime)))
    case CallClose(order, answers) =>
      && |answers| == |order|
      && (!c.closed && !c.agent.closed ==> Enumerates(order, c.agent.transactions.Keys))
    case _ => true
  }

  function Next(c: Client, call: Call): Client
    requires call.CallCollect? || call.CallClose? ==> |call.answers| == |call.order|
  {
    match call
    case CallStart(id, raw, withHandler, ans) => Start(c, id, raw, withHandler, ans).c
    case CallCollect(gcTime, order, answers) => Collect(c, gcTime, order, answers)
    case CallProcess(id, ans) => Process(c, id, ans)
    case CallSetRTO(rto) => SetRTO(c, rto)
    case CallClose(order, answers) => Close(c, order, answers).c
  }

  /** The states of a run, the first one included. */
  ghost predicate IsRun(states: seq<Client>, calls: seq<Call>) {
    && |states| == |calls| + 1
    && forall i :: 0 <= i < |calls| ==> Possible(states[i], calls[i]) && states[i + 1] == Next(states[i], calls[i])
  }
}
