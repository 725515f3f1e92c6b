/** Why the results about runs need calls that run to completion, and how `Start` answers when they did not. */
module ClientOverlap {
  import opened Base
  import opened Wire
  import opened AgentSpec
  import opened ClientSpec
  import opened ClientProofs

  // A message is processed while a time-out for the same transaction waits to be delivered.

  /** The agent has nothing left to take out for an id whose time-out is waiting. */
  lemma ProcessFindsNothing(c: Client, waiting: set<TxId>, id: TxId)
    requires Linked(c, waiting) && id in waiting
    ensures c.(agent := ProcessSection(c.agent, id)) == c
  {
    assert c.agent.transactions - {id} == c.agent.transactions;
  }

  /** The waiting time-out puts the id back in the agent exactly if attempts are left and the write succeeds. */
  lemma TimeOutRegisters(c: Client, waiting: set<TxId>, id: TxId, at: Time, ans: Answer)
    requires Live(c) && Linked(c, waiting) && id in waiting
    ensures var d := HandleEvent(c, Event(id, Some(TransactionTimeOut)), at, ans);
            && !d.closed && !d.agent.closed && d.t.Keys - {id} == c.t.Keys - {id}
            && d.agent.transactions.Keys - {id} == c.agent.transactions.Keys
            && (id in d.t <==> c.t[id].attempt < c.maxAttempts && ans.writeOk)
            && (id in d.agent.transactions <==> c.t[id].attempt < c.maxAttempts && ans.writeOk)
  {
    assert c.t[id].id == id && c.t[id].calls == 0;
    hide Live, HandleEvent, Resent, NextTimeout;
    EventOutcome(c, waiting, Event(id, Some(TransactionTimeOut)), at, ans);
  }

  /** A message event drops the id from the client and leaves the agent alone. */
  lemma MessageDrops(c: Client, id: TxId, at: Time, ans: Answer)
    requires !c.closed
    ensures var d := HandleEvent(c, Event(id, None), at, ans);
            !d.closed && d.t.Keys == c.t.Keys - {id} && d.agent == c.agent
  {
    hide Resend;
  }

  /** The message is processed, then the time-out is delivered, then the message is. */
  function TimeOutFirst(c: Client, id: TxId, at: Time, first: Answer, second: Answer): Client {
    HandleEvent(HandleEvent(c.(agent := ProcessSection(c.agent, id)), Event(id, Some(TransactionTimeOut)), at, first), Event(id, None), at, second)
  }

  /** The same with the message delivered first. */
  function MessageFirst(c: Client, id: TxId, at: Time, first: Answer, second: Answer): Client {
    HandleEvent(HandleEvent(c.(agent := ProcessSection(c.agent, id)), Event(id, None), at, first), Event(id, Some(TransactionTimeOut)), at, second)
  }

  /** If the time-out is delivered first, the agent keeps an id the client no longer has exactly when attempts
      were left and the write succeeded; in all other cases the ids agree as they should. */
  lemma OverlapIff(c: Client, waiting: set<TxId>, id: TxId, at: Time, first: Answer, second: Answer)
    requires Live(c) && Linked(c, waiting) && id in waiting
    ensures var d := TimeOutFirst(c, id, at, first, second);
            && id !in d.t
            && (id in d.agent.transactions <==> c.t[id].attempt < c.maxAttempts && first.writeOk)
            && (Linked(d, waiting - {id}) <==> !(c.t[id].attempt < c.maxAttempts && first.writeOk))
  {
    hide Live, HandleEvent;
    ProcessFindsNothing(c, waiting, id);
    TimeOutRegisters(c, waiting, id, at, first);
    MessageDrops(HandleEvent(c, Event(id, Some(TransactionTimeOut)), at, first), id, at, second);
    var d := TimeOutFirst(c, id, at, first, second);
    assert d.t.Keys == c.t.Keys - {id};
    if id !in d.agent.transactions {
      assert d.agent.transactions.Keys == c.agent.transactions.Keys;
    }
  }

  /** An event for an id the client does not have changes neither map. */
  lemma UnknownIgnored(c: Client, e: Event, at: Time, ans: Answer)
    requires e.id !in c.t
    ensures var d := HandleEvent(c, e, at, ans); d.t == c.t && d.agent == c.agent && d.closed == c.closed
  {
  }

  /** If the message is delivered first the ids agree whatever happens. */
  lemma MessageFirstAgrees(c: Client, waiting: set<TxId>, id: TxId, at: Time, first: Answer, second: Answer)
    requires Linked(c, waiting) && id in waiting
    ensures Linked(MessageFirst(c, id, at, first, second), waiting - {id})
  {
    hide HandleEvent;
    ProcessFindsNothing(c, waiting, id);
    MessageDrops(c, id, at, first);
    UnknownIgnored(HandleEvent(c, Event(id, None), at, first), Event(id, Some(TransactionTimeOut)), at, second);
  }

  const SOME_ID: TxId := Zeros(12)

  /** A new client, one transaction started at time 0 with an RTO of 1, and a collection at time 2. */
  function Example(): Client {
    var c := Start(NewClient(1, 7, false), SOME_ID, [], true, Answer(0, true)).c;
    c.(agent := CollectSection(c.agent, 2))
  }

  lemma ExampleWaits()
    ensures var c := Example(); Live(c) && Linked(c, {SOME_ID}) && c.t.Keys == {SOME_ID} && c.t[SOME_ID].attempt == 0 && c.maxAttempts == 7
  {
    hide Start, Wrote;
    var c := NewClient(1, 7, false);
    StartOutcome(c, SOME_ID, [], Answer(0, true));
    var b := Began(c, SOME_ID, [], 0);
    assert b.agent.transactions == map[SOME_ID := 1];
    assert CollectSection(b.agent, 2).transactions == map[];
  }

  /** A concrete run after which the ids differ. */
  lemma OverlapExample()
    ensures var d := TimeOutFirst(Example(), SOME_ID, 2, Answer(2, true), Answer(2, true));
            d.t == map[] && SOME_ID in d.agent.transactions
  {
    hide Example, HandleEvent;
    ExampleWaits();
    OverlapIff(Example(), {SOME_ID}, SOME_ID, 2, Answer(2, true), Answer(2, true));
    ProcessFindsNothing(Example(), {SOME_ID}, SOME_ID);
    TimeOutRegisters(Example(), {SOME_ID}, SOME_ID, 2, Answer(2, true));
    MessageDrops(HandleEvent(Example(), Event(SOME_ID, Some(TransactionTimeOut)), 2, Answer(2, true)), SOME_ID, 2, Answer(2, true));
    assert TimeOutFirst(Example(), SOME_ID, 2, Answer(2, true), Answer(2, true)).t.Keys == {};
  }

  // Starting when the agent has an id the client does not have.

  /** A start that returns an error leaves the map of the client as it was except exactly when it was the
      agent that refused: then the transaction stays in the map. */
  lemma RefusedStartIff(c: Client, id: TxId, raw: Bytes, ans: Answer)
    requires !c.closed
    ensures var r := Start(c, id, raw, true, ans);
            r.err.Some? ==> (r.c.t == c.t <==> !(id !in c.t && (c.agent.closed || id in c.agent.transactions)))
  {
    hide Start, Began;
    StartOutcome(c, id, raw, ans);
    var r := Start(c, id, raw, true, ans);
    if id !in c.t && (c.agent.closed || id in c.agent.transactions) {
      assert id in r.c.t;
    }
  }

  /** Then a message with that id calls the handler of a transaction whose start returned an error. */
  lemma RefusedStartAnswered(c: Client, id: TxId, raw: Bytes, ans: Answer, later: Answer)
    requires !c.closed && !c.agent.closed && id !in c.t && id in c.agent.transactions
    ensures var r := Start(c, id, raw, true, ans);
            && r.err == Some(TransactionExists) && r.c.accepted == c.accepted
            && Process(r.c, id, later).callbacks == c.callbacks + [Callback(c.made, Event(id, None), later.now)]
  {
    hide Start, Resend;
    StartOutcome(c, id, raw, ans);
  }

  /** The concrete run goes on so: the next start of the id is refused, and its handler is called. */
  lemma RefusedStartExample(raw: Bytes, ans: Answer, later: Answer)
    ensures var d := TimeOutFirst(Example(), SOME_ID, 2, Answer(2, true), Answer(2, true));
            var r := Start(d, SOME_ID, raw, true, ans);
            && r.err.Some? && d.made !in r.c.accepted
            && Process(r.c, SOME_ID, later).callbacks == d.callbacks + [Callback(d.made, Event(SOME_ID, None), later.now)]
  {
    var d := TimeOutFirst(Example(), SOME_ID, 2, Answer(2, true), Answer(2, true));
    OverlapExample();
    ExampleBooks();
    hide Example, TimeOutFirst, Start, Process;
    RefusedStartAnswered(d, SOME_ID, raw, ans, later);
  }

  lemma ExampleBooks()
    ensures var d := TimeOutFirst(Example(), SOME_ID, 2, Answer(2, true), Answer(2, true));
            !d.closed && !d.agent.closed && d.made !in d.accepted
  {
    var c, e := Example(), Event(SOME_ID, Some(TransactionTimeOut));
    ExampleWaits();
    ProcessFindsNothing(c, {SOME_ID}, SOME_ID);
    EventOutcome(c, {SOME_ID}, e, 2, Answer(2, true));
    StartOutcome(NewClient(1, 7, false), SOME_ID, [], Answer(0, true));
    hide Start, Resend, Resent, NextTimeout;
    MessageBooks(Retried(c, SOME_ID, 2), SOME_ID, 2, Answer(2, true));
  }

  lemma MessageBooks(c: Client, id: TxId, at: Time, ans: Answer)
    ensures var d := HandleEvent(c, Event(id, None), at, ans);
            d.closed == c.closed && d.agent == c.agent && d.made == c.made && d.accepted == c.accepted
  {
    hide Resend;
  }
}
