/** What any interleaving of an agent's locked sections with the delivery of their events keeps. */
module AgentRuns {
  import opened Base
  import opened Wire
  import opened AgentSpec

  /** An event on its way to the handler that was set when it was made; `consumed` if a registration
      ended with it. */
  datatype Note = Note(event: Event, handler: nat, consumed: bool)

  /** Events made under the lock wait in `pending` until they are delivered, in any order. */
  datatype Machine = Machine(agent: AgentState, pending: seq<Note>, delivered: seq<Note>, started: seq<TxId>)

  datatype Step =
    | DoStart(id: TxId, deadline: Time)
    | DoStop(id: TxId, error: Error)
    | DoCollect(gcTime: Time, order: seq<TxId>)
    | DoProcess(id: TxId)
    | DoSetHandler(handler: nat)
    | DoClose(order: seq<TxId>)
    | DoDeliver(i: nat)

  ghost predicate Enabled(m: Machine, step: Step) {
    match step
    case DoCollect(gcTime, order) => !m.agent.closed ==> Enumerates(order, Expired(m.agent, gcTime))
    case DoClose(order) => !m.agent.closed ==> Enumerates(order, m.agent.transactions.Keys)
    case DoDeliver(i) => i < |m.pending|
    case _ => true
  }

  function Notes(order: seq<TxId>, error: Error, handler: nat): seq<Note> {
    seq(|order|, i requires 0 <= i < |order| => Note(Event(order[i], Some(error)), handler, true))
  }

  function Next(m: Machine, step: Step): Machine {
    var a := m.agent;
    match step
    case DoStart(id, deadline) =>
      var r := StartSection(a, id, deadline);
      m.(agent := r.a, started := m.started + (if r.err.None? then [id] else []))
    case DoStop(id, error) =>
      var r := StopSection(a, id);
      m.(agent := r.a, pending := m.pending + (if r.err.None? then [Note(Event(id, Some(error)), a.handler, true)] else []))
    case DoCollect(gcTime, order) =>
      if a.closed then m
      else m.(agent := CollectSection(a, gcTime), pending := m.pending + Notes(order, TransactionTimeOut, a.handler))
    case DoProcess(id) =>
      if a.closed then m
      else m.(agent := ProcessSection(a, id), pending := m.pending + [Note(Event(id, None), a.handler, id in a.transactions)])
    case DoSetHandler(h) =>
      if a.closed then m else m.(agent := a.(handler := h))
    case DoClose(order) =>
      if a.closed then m
      else m.(agent := CloseSection(a), delivered := m.delivered + Notes(order, AgentClosed, a.handler))
    case DoDeliver(i) =>
      if i < |m.pending| then
        m.(pending := m.pending[..i] + m.pending[i + 1..], delivered := m.delivered + [m.pending[i]])
      else m
  }

  function Run(m: Machine, steps: seq<Step>): Machine
    decreases |steps|
  {
    if steps == [] then m else Run(Next(m, steps[0]), steps[1..])
  }

  ghost predicate Allowed(m: Machine, steps: seq<Step>)
    decreases |steps|
  {
    steps == [] || (Enabled(m, steps[0]) && Allowed(Next(m, steps[0]), steps[1..]))
  }

  // Conservation.

  /** How many of the notes ended a registration of `id`. */
  function Ended(notes: seq<Note>, id: TxId): nat {
    if notes == [] then 0
    else (if notes[0].consumed && notes[0].event.id == id then 1 else 0) + Ended(notes[1..], id)
  }

  function Times(ids: seq<TxId>, id: TxId): nat {
    if ids == [] then 0 else (if ids[0] == id then 1 else 0) + Times(ids[1..], id)
  }

  function Registered(a: AgentState, id: TxId): nat {
    if id in a.transactions then 1 else 0
  }

  ghost predicate Conserved(m: Machine) {
    forall id: TxId :: Times(m.started, id) == Ended(m.delivered, id) + Ended(m.pending, id) + Registered(m.agent, id)
  }

  lemma {:induction false} EndedAppend(a: seq<Note>, b: seq<Note>, id: TxId)
    ensures Ended(a + b, id) == Ended(a, id) + Ended(b, id)
  {
    if a == [] {
      assert a + b == b;
    } else {
      EndedAppend(a[1..], b, id);
      assert (a + b)[0] == a[0] && (a + b)[1..] == a[1..] + b;
    }
  }

  lemma {:induction false} TimesAppend(a: seq<TxId>, b: seq<TxId>, id: TxId)
    ensures Times(a + b, id) == Times(a, id) + Times(b, id)
  {
    if a == [] {
      assert a + b == b;
    } else {
      TimesAppend(a[1..], b, id);
      assert (a + b)[0] == a[0] && (a + b)[1..] == a[1..] + b;
    }
  }

  /** A list of each element once ends each of them once. */
  lemma {:induction false} EndedOnce(order: seq<TxId>, error: Error, handler: nat, id: TxId)
    requires forall i, j :: 0 <= i < j < |order| ==> order[i] != order[j]
    ensures Ended(Notes(order, error, handler), id) == if id in order then 1 else 0
  {
    if order != [] {
      var rest := order[1..];
      forall i, j | 0 <= i < j < |rest| ensures rest[i] != rest[j] {
        assert order[i + 1] != order[j + 1];
      }
      EndedOnce(rest, error, handler, id);
      assert Notes(order, error, handler)[1..] == Notes(rest, error, handler);
      forall k | 0 <= k < |rest| ensures rest[k] != order[0] {
        assert order[0] != order[k + 1];
      }
    }
  }

  lemma {:induction false} EndedWithout(notes: seq<Note>, i: nat, id: TxId)
    requires i < |notes|
    ensures Ended(notes, id) == Ended(notes[..i] + notes[i + 1..], id) + Ended([notes[i]], id)
  {
    assert notes == notes[..i] + ([notes[i]] + notes[i + 1..]);
    EndedAppend(notes[..i], [notes[i]] + notes[i + 1..], id);
    EndedAppend([notes[i]], notes[i + 1..], id);
    EndedAppend(notes[..i], notes[i + 1..], id);
  }

  lemma StepConserves(m: Machine, step: Step)
    requires Conserved(m) && Enabled(m, step)
    ensures Conserved(Next(m, step))
  {
    hide Ended, Times;
    var n := Next(m, step);
    forall id: TxId
      ensures Times(n.started, id) == Ended(n.delivered, id) + Ended(n.pending, id) + Registered(n.agent, id)
    {
      assert Times(m.started, id) == Ended(m.delivered, id) + Ended(m.pending, id) + Registered(m.agent, id);
      StepConservesOne(m, step, id);
    }
  }

  /** What a step adds to both sides of the balance of one id. */
  lemma StepConservesOne(m: Machine, step: Step, id: TxId)
    requires Enabled(m, step)
    ensures var n := Next(m, step);
            Times(n.started, id) - Times(m.started, id)
            == Ended(n.delivered, id) + Ended(n.pending, id) + Registered(n.agent, id)
               - (Ended(m.delivered, id) + Ended(m.pending, id) + Registered(m.agent, id))
  {
    var n := Next(m, step);
    match step {
      case DoStart(x, _) =>
        TimesAppend(m.started, if StartSection(m.agent, x, step.deadline).err.None? then [x] else [], id);
      case DoStop(x, error) =>
        EndedAppend(m.pending, if StopSection(m.agent, x).err.None? then [Note(Event(x, Some(error)), m.agent.handler, true)] else [], id);
      case DoCollect(gcTime, order) =>
        if !m.agent.closed {
          EndedAppend(m.pending, Notes(order, TransactionTimeOut, m.agent.handler), id);
          EndedOnce(order, TransactionTimeOut, m.agent.handler, id);
          assert id in order <==> id in Expired(m.agent, gcTime);
        }
      case DoProcess(x) =>
        if !m.agent.closed {
          EndedAppend(m.pending, [Note(Event(x, None), m.agent.handler, x in m.agent.transactions)], id);
        }
      case DoSetHandler(_) =>
      case DoClose(order) =>
        if !m.agent.closed {
          EndedAppend(m.delivered, Notes(order, AgentClosed, m.agent.handler), id);
          EndedOnce(order, AgentClosed, m.agent.handler, id);
          assert id in order <==> id in m.agent.transactions;
        }
      case DoDeliver(i) =>
        EndedWithout(m.pending, i, id);
        EndedAppend(m.delivered, [m.pending[i]], id);
    }
  }

  function NewMachine(handler: nat): Machine {
    Machine(AgentState(false, map[], handler), [], [], [])
  }

  lemma {:induction false} ConservedFrom(m: Machine, steps: seq<Step>)
    requires Conserved(m) && Allowed(m, steps)
    ensures Conserved(Run(m, steps))
    decreases |steps|
  {
    hide Conserved, Next, Enabled;
    if steps != [] {
      StepConserves(m, steps[0]);
      ConservedFrom(Next(m, steps[0]), steps[1..]);
    }
  }

  /** In every interleaving, for each id, the successful starts are the registrations ended by a
      delivered event, those ended by a pending one, and the one still there if any. */
  lemma RunConserves(handler: nat, steps: seq<Step>)
    requires Allowed(NewMachine(handler), steps)
    ensures Conserved(Run(NewMachine(handler), steps))
  {
    ConservedFrom(NewMachine(handler), steps);
  }

  // After closing.

  ghost predicate Shut(m: Machine) {
    m.agent.closed ==> m.agent.transactions == map[]
  }

  /** `b` is `a` with some elements taken out. */
  ghost predicate Shrunk(a: seq<Note>, b: seq<Note>) {
    multiset(b) <= multiset(a)
  }

  /** Once closed, an agent stays closed and empty and makes no event: what is pending only gets
      delivered. */
  lemma {:induction false} ClosedForGood(m: Machine, steps: seq<Step>)
    requires m.agent.closed && Shut(m)
    ensures var n := Run(m, steps);
            && n.agent == m.agent && n.started == m.started && Shrunk(m.pending, n.pending)
            && multiset(n.pending) + multiset(n.delivered) == multiset(m.pending) + multiset(m.delivered)
    decreases |steps|
  {
    if steps != [] {
      var n := Next(m, steps[0]);
      if steps[0].DoDeliver? && steps[0].i < |m.pending| {
        var i := steps[0].i;
        assert m.pending == m.pending[..i] + [m.pending[i]] + m.pending[i + 1..];
      }
      ClosedForGood(n, steps[1..]);
    }
  }

  lemma {:induction false} RunShut(m: Machine, steps: seq<Step>)
    requires Shut(m)
    ensures Shut(Run(m, steps))
    decreases |steps|
  {
    if steps != [] {
      RunShut(Next(m, steps[0]), steps[1..]);
    }
  }

  // What each section makes.

  /** A start registers the id with its deadline if the agent is open and does not have it; otherwise the error says
      which, and nothing changes. */
  lemma StartExact(m: Machine, id: TxId, deadline: Time)
    ensures var n, err := Next(m, DoStart(id, deadline)), StartSection(m.agent, id, deadline).err;
            && (err == Some(AgentClosed) <==> m.agent.closed)
            && (err == Some(TransactionExists) <==> !m.agent.closed && id in m.agent.transactions)
            && (err.None? <==> !m.agent.closed && id !in m.agent.transactions)
            && (err.Some? ==> n == m)
            && (err.None? ==> n.agent.transactions == m.agent.transactions[id := deadline] && n.started == m.started + [id] && n.pending == m.pending)
  {
    assert m.started + [] == m.started;
  }

  /** A stop makes one event, with the error given, for the handler set at the time, if the id was registered; that
      ends its registration and no other. */
  lemma StopExact(m: Machine, id: TxId, error: Error)
    ensures var n, err := Next(m, DoStop(id, error)), StopSection(m.agent, id).err;
            && (err == Some(AgentClosed) <==> m.agent.closed)
            && (err == Some(TransactionNotExists) <==> !m.agent.closed && id !in m.agent.transactions)
            && (err.None? <==> !m.agent.closed && id in m.agent.transactions)
            && (err.Some? ==> n == m)
            && (err.None? ==> n.agent.transactions == m.agent.transactions - {id}
                              && n.pending == m.pending + [Note(Event(id, Some(error)), m.agent.handler, true)])
  {
    assert m.pending + [] == m.pending;
    assert id !in m.agent.transactions ==> m.agent.transactions - {id} == m.agent.transactions;
  }

  /** A message makes one event, without an error, whether or not its id is registered. */
  lemma ProcessExact(m: Machine, id: TxId)
    requires !m.agent.closed
    ensures var n := Next(m, DoProcess(id));
            && n.agent.transactions == m.agent.transactions - {id} && n.delivered == m.delivered
            && n.pending == m.pending + [Note(Event(id, None), m.agent.handler, id in m.agent.transactions)]
  {
  }

  /** A new handler gets the events that are made after it is set, as `StopExact`, `ProcessExact` and `CollectExact` say;
      those already made keep theirs. */
  lemma SetHandlerExact(m: Machine, h: nat)
    ensures var n := Next(m, DoSetHandler(h));
            && n.agent.handler == (if m.agent.closed then m.agent.handler else h) && n.agent.transactions == m.agent.transactions
            && n.pending == m.pending && n.delivered == m.delivered
  {
  }

  /** A delivery hands over one pending event and no other, as it was made. */
  lemma DeliverExact(m: Machine, i: nat)
    requires i < |m.pending|
    ensures var n := Next(m, DoDeliver(i));
            && n.delivered == m.delivered + [m.pending[i]] && n.agent == m.agent
            && |n.pending| == |m.pending| - 1
            && (forall k :: 0 <= k < |n.pending| ==> n.pending[k] == m.pending[if k < i then k else k + 1])
  {
  }

  /** Closing tells the handler of every registered id, once each, that the agent is closed, before it returns. */
  lemma CloseExact(m: Machine, order: seq<TxId>)
    requires !m.agent.closed && Enabled(m, DoClose(order))
    ensures var n := Next(m, DoClose(order));
            && n.agent.closed && n.agent.transactions == map[] && n.pending == m.pending && m.delivered <= n.delivered
            && (forall id: TxId :: Ended(n.delivered[|m.delivered|..], id) == if id in m.agent.transactions then 1 else 0)
            && (forall i :: |m.delivered| <= i < |n.delivered| ==>
                  n.delivered[i].event.error == Some(AgentClosed) && n.delivered[i].handler == m.agent.handler)
  {
    var n := Next(m, DoClose(order));
    assert n.delivered[|m.delivered|..] == Notes(order, AgentClosed, m.agent.handler);
    forall id: TxId ensures Ended(Notes(order, AgentClosed, m.agent.handler), id) == if id in m.agent.transactions then 1 else 0 {
      EndedOnce(order, AgentClosed, m.agent.handler, id);
    }
  }

  // What a collection takes.

  /** A collection ends exactly the registrations whose deadline is before its time, one event each, and
      leaves the others with their deadlines. */
  lemma CollectExact(m: Machine, gcTime: Time, order: seq<TxId>)
    requires !m.agent.closed && Enabled(m, DoCollect(gcTime, order))
    ensures var n := Next(m, DoCollect(gcTime, order));
            && (forall id: TxId :: id in n.agent.transactions <==> id in m.agent.transactions && gcTime <= m.agent.transactions[id])
            && (forall id: TxId :: id in n.agent.transactions ==> n.agent.transactions[id] == m.agent.transactions[id])
            && m.pending <= n.pending
            && (forall id: TxId :: Ended(n.pending[|m.pending|..], id) == if id in Expired(m.agent, gcTime) then 1 else 0)
            && (forall i :: |m.pending| <= i < |n.pending| ==>
                  n.pending[i].event.error == Some(TransactionTimeOut) && n.pending[i].handler == m.agent.handler)
  {
    var n := Next(m, DoCollect(gcTime, order));
    assert n.pending[|m.pending|..] == Notes(order, TransactionTimeOut, m.agent.handler);
    forall id: TxId ensures Ended(Notes(order, TransactionTimeOut, m.agent.handler), id) == if id in Expired(m.agent, gcTime) then 1 else 0 {
      EndedOnce(order, TransactionTimeOut, m.agent.handler, id);
    }
  }
}
