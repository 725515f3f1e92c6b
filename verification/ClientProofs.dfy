/** What every run of a client keeps. */
module ClientProofs {
  import opened Base
  import opened Wire
  import opened AgentSpec
  import opened ClientSpec

  // The invariant, in parts. `waiting` holds the ids whose event is made but not yet delivered.

  /** While open, the ids of the client are those of the agent and those waiting. */
  ghost predicate Linked(c: Client, waiting: set<TxId>) {
    && !c.closed && !c.agent.closed
    && c.t.Keys == c.agent.transactions.Keys + waiting && c.agent.transactions.Keys !! waiting
  }

  /** Transactions in the map are as they were accepted, not called yet, each with its own tag. */
  ghost predicate Live(c: Client) {
    && (forall id :: id in c.t ==>
          var x := c.t[id];
          && x.id == id && x.calls == 0 && x.attempt <= c.maxAttempts
          && x.tag in c.accepted && c.accepted[x.tag] == Accepted(id, x.start, x.rto, x.raw))
    && (forall id, id' :: id in c.t && id' in c.t && id != id' ==> c.t[id].tag != c.t[id'].tag)
  }

  /** Each accepted transaction is in the map or had its handler called, not both, and once. */
  ghost predicate Accounted(c: Client) {
    && (forall tag :: tag in c.accepted || tag in c.sent ==> tag < c.made)
    && |c.accepted| == |c.callbacks| + |c.t|
    && (forall i :: 0 <= i < |c.callbacks| ==>
          && c.callbacks[i].tag in c.accepted && c.callbacks[i].event.id == c.accepted[c.callbacks[i].tag].id
          && forall id :: id in c.t ==> c.t[id].tag != c.callbacks[i].tag)
    && (forall i, j :: 0 <= i < j < |c.callbacks| ==> c.callbacks[i].tag != c.callbacks[j].tag)
  }

  /** The first write was the message, the others what fits of it, and there were never more than
      `maxAttempts` others; a transaction in the map was written once more than it was tried again. */
  ghost predicate Written(c: Client) {
    && (forall tag :: tag in c.sent ==> 1 <= |c.sent[tag]| <= c.maxAttempts + 1)
    && (forall tag :: tag in c.accepted ==>
          && tag in c.sent && c.sent[tag][0] == c.accepted[tag].raw
          && forall i :: 1 <= i < |c.sent[tag]| ==> c.sent[tag][i] == Resent(c.accepted[tag].raw))
    && (forall id :: id in c.t ==> c.t[id].tag in c.sent && |c.sent[c.t[id].tag]| == c.t[id].attempt + 1)
  }

  /** The earliest time the k-th wait can end: the first is one RTO, the next two, and so on. */
  function Due(start: Time, rto: int, attempt: nat): Time {
    start + rto * ((attempt + 1) * (attempt + 2) / 2)
  }

  ghost predicate NotBefore(c: Client) {
    && (forall id :: id in c.t && id in c.agent.transactions ==>
          Due(c.t[id].start, c.t[id].rto, c.t[id].attempt) <= c.agent.transactions[id])
    && (forall i :: 0 <= i < |c.callbacks| && c.callbacks[i].tag in c.accepted
                    && c.callbacks[i].event.error == Some(TransactionTimeOut) ==>
          var a := c.accepted[c.callbacks[i].tag]; Due(a.start, a.rto, c.maxAttempts) < c.callbacks[i].at)
  }

  /** The deadlines of those waiting had passed at time `at`. */
  ghost predicate Late(c: Client, waiting: set<TxId>, at: Time) {
    forall id :: id in waiting && id in c.t ==> Due(c.t[id].start, c.t[id].rto, c.t[id].attempt) < at
  }

  ghost predicate Sane(c: Client) {
    Live(c) && Accounted(c) && Written(c) && NotBefore(c)
  }

  /** Between calls. A closed client keeps the transactions it had, and its agent has none. */
  ghost predicate Inv(c: Client) {
    && Sane(c)
    && (!c.closed ==> Linked(c, {}))
    && (c.closed ==> c.agent.closed && c.agent.transactions == map[])
  }

  // What an event does to the client.

  function Finished(c: Client, id: TxId, e: Event, at: Time): Client
    requires id in c.t
  {
    c.(t := c.t - {id}, callbacks := c.callbacks + [Callback(c.t[id].tag, e, at)])
  }

  function Rewrote(c: Client, id: TxId): Client
    requires id in c.t
  {
    Wrote(c, c.t[id].tag, Resent(c.t[id].raw))
  }

  function Retried(c: Client, id: TxId, now: Time): Client
    requires id in c.t
  {
    var x := c.t[id].(attempt := c.t[id].attempt + 1);
    var w := Rewrote(c, id);
    w.(t := c.t[id := x], agent := c.agent.(transactions := c.agent.transactions[id := NextTimeout(x, now)]))
  }

  /** Stopping a transaction the client has already forgotten only takes it from the agent. */
  lemma StopIgnored(c: Client, id: TxId, at: Time, ans: Answer)
    requires !c.closed && !c.agent.closed && id !in c.t && id in c.agent.transactions
    ensures Stop(c, id, at, ans) == Result(c.(agent := c.agent.(transactions := c.agent.transactions - {id})), None)
  {
  }

  /** Sending again, from a state where neither map has the id, puts it in both or in neither. */
  lemma ResendOutcome(c: Client, x: Transaction, e: Event, at: Time, ans: Answer)
    requires !c.closed && !c.agent.closed && x.id !in c.t && x.id !in c.agent.transactions && x.calls == 0
    ensures var w := Wrote(c, x.tag, Resent(x.raw));
            Resend(c, x, e, at, ans) ==
            if ans.writeOk then
              w.(t := c.t[x.id := x], agent := c.agent.(transactions := c.agent.transactions[x.id := NextTimeout(x, ans.now)]))
            else
              w.(callbacks := c.callbacks + [Callback(x.tag, e.(error := Some(WriteFailed)), at)])
  {
    hide Stop, Resent, NextTimeout;
    var deadline := NextTimeout(x, ans.now);
    var w := Wrote(c, x.tag, Resent(x.raw));
    assert c.t[x.id := x] - {x.id} == c.t;
    assert c.agent.transactions[x.id := deadline] - {x.id} == c.agent.transactions;
    StopIgnored(w.(agent := c.agent.(transactions := c.agent.transactions[x.id := deadline])), x.id, at, ans);
  }

  /** An event for a waiting transaction ends it, puts it back, or fails to and ends it with that. A
      failed attempt leaves the agent as it was: the nested stop event is ignored. */
  lemma EventOutcome(c: Client, waiting: set<TxId>, e: Event, at: Time, ans: Answer)
    requires Linked(c, waiting) && e.id in waiting && c.t[e.id].id == e.id && c.t[e.id].calls == 0
    ensures var x := c.t[e.id];
            HandleEvent(c, e, at, ans) ==
            if c.maxAttempts <= x.attempt || e.error.None? then Finished(c, e.id, e, at)
            else if ans.writeOk then Retried(c, e.id, ans.now)
            else Finished(Rewrote(c, e.id), e.id, e.(error := Some(WriteFailed)), at)
  {
    hide Resend, Resent, NextTimeout;
    var x := c.t[e.id];
    if x.attempt < c.maxAttempts && e.error.Some? {
      var y := x.(attempt := x.attempt + 1);
      ResendOutcome(Forget(c, e.id), y, e, at, ans);
      assert (c.t - {e.id})[e.id := y] == c.t[e.id := y];
    }
  }

  // Each outcome keeps the invariant.

  lemma FinishedLive(c: Client, id: TxId, e: Event, at: Time)
    requires Live(c) && id in c.t
    ensures Live(Finished(c, id, e, at))
  {
  }

  lemma FinishedAccounted(c: Client, id: TxId, e: Event, at: Time)
    requires Live(c) && Accounted(c) && id in c.t && e.id == id
    ensures Accounted(Finished(c, id, e, at))
  {
    OneLess(c.t, id);
    var d, n := Finished(c, id, e, at), |c.callbacks|;
    forall i | 0 <= i < |d.callbacks|
      ensures d.callbacks[i].tag in d.accepted && d.callbacks[i].event.id == d.accepted[d.callbacks[i].tag].id
      ensures forall x :: x in d.t ==> d.t[x].tag != d.callbacks[i].tag
    {
      if i < n {
        assert d.callbacks[i] == c.callbacks[i];
      }
    }
    forall i, j | 0 <= i < j < |d.callbacks| ensures d.callbacks[i].tag != d.callbacks[j].tag {
      assert d.callbacks[i] == c.callbacks[i];
      if j < n {
        assert d.callbacks[j] == c.callbacks[j];
      }
    }
  }

  lemma OneLess<K, V>(m: map<K, V>, k: K)
    requires k in m
    ensures |m - {k}| == |m| - 1
  {
    assert m.Keys == (m - {k}).Keys + {k};
  }

  lemma FinishedWritten(c: Client, id: TxId, e: Event, at: Time)
    requires Written(c) && id in c.t
    ensures Written(Finished(c, id, e, at))
  {
  }

  lemma FinishedNotBefore(c: Client, id: TxId, e: Event, at: Time)
    requires Live(c) && NotBefore(c) && id in c.t
    requires e.error == Some(TransactionTimeOut) ==> Due(c.t[id].start, c.t[id].rto, c.maxAttempts) < at
    ensures NotBefore(Finished(c, id, e, at))
  {
    hide Due;
  }

  lemma FinishedSane(c: Client, id: TxId, e: Event, at: Time)
    requires Sane(c) && id in c.t && e.id == id
    requires e.error == Some(TransactionTimeOut) ==> Due(c.t[id].start, c.t[id].rto, c.maxAttempts) < at
    ensures Sane(Finished(c, id, e, at))
  {
    FinishedLive(c, id, e, at);
    FinishedAccounted(c, id, e, at);
    FinishedWritten(c, id, e, at);
    FinishedNotBefore(c, id, e, at);
  }

  lemma RewroteKeeps(c: Client, id: TxId)
    requires Live(c) && Accounted(c) && NotBefore(c) && id in c.t
    ensures Live(Rewrote(c, id)) && Accounted(Rewrote(c, id)) && NotBefore(Rewrote(c, id))
  {
    hide Due, Resent;
  }

  /** One more write of a transaction that has attempts left. */
  lemma RewroteWritten(c: Client, id: TxId)
    requires Live(c) && Written(c) && id in c.t && c.t[id].attempt < c.maxAttempts
    ensures var d := Rewrote(c, id);
            && (forall tag :: tag in d.sent ==> 1 <= |d.sent[tag]| <= d.maxAttempts + 1)
            && (forall tag :: tag in d.accepted ==>
                  && tag in d.sent && d.sent[tag][0] == d.accepted[tag].raw
                  && forall i :: 1 <= i < |d.sent[tag]| ==> d.sent[tag][i] == Resent(d.accepted[tag].raw))
            && (forall x :: x in d.t ==> d.t[x].tag in d.sent && |d.sent[d.t[x].tag]| == d.t[x].attempt + if x == id then 2 else 1)
  {
    hide Resent;
    var d, tag0 := Rewrote(c, id), c.t[id].tag;
    assert d.sent[tag0] == c.sent[tag0] + [Resent(c.t[id].raw)];
    forall tag | tag in d.accepted
      ensures tag in d.sent && d.sent[tag][0] == d.accepted[tag].raw
      ensures forall i :: 1 <= i < |d.sent[tag]| ==> d.sent[tag][i] == Resent(d.accepted[tag].raw)
    {
      if tag == tag0 {
        assert c.accepted[tag].raw == c.t[id].raw;
      }
    }
    forall x | x in d.t ensures d.t[x].tag in d.sent && |d.sent[d.t[x].tag]| == d.t[x].attempt + if x == id then 2 else 1 {
      if x != id {
        assert c.t[x].tag != tag0;
      }
    }
  }

  /** Another write, when the transaction is taken off the map with it. */
  lemma FailedSane(c: Client, id: TxId, e: Event, at: Time)
    requires Sane(c) && id in c.t && e.id == id && c.t[id].attempt < c.maxAttempts && e.error != Some(TransactionTimeOut)
    ensures Sane(Finished(Rewrote(c, id), id, e, at))
  {
    hide Rewrote, Finished;
    RewroteKeeps(c, id);
    FailedWritten(c, id, e, at);
    RewroteSame(c, id);
    var d := Rewrote(c, id);
    FinishedLive(d, id, e, at);
    FinishedAccounted(d, id, e, at);
    FinishedNotBefore(d, id, e, at);
  }

  lemma RewroteSame(c: Client, id: TxId)
    requires id in c.t
    ensures Rewrote(c, id).t == c.t && Rewrote(c, id).maxAttempts == c.maxAttempts
  {
  }

  lemma FailedWritten(c: Client, id: TxId, e: Event, at: Time)
    requires Live(c) && Written(c) && id in c.t && c.t[id].attempt < c.maxAttempts
    ensures id in Rewrote(c, id).t && Written(Finished(Rewrote(c, id), id, e, at))
  {
    hide Resent;
    RewroteWritten(c, id);
  }

  lemma RetriedLive(c: Client, id: TxId, now: Time)
    requires Live(c) && id in c.t && c.t[id].attempt < c.maxAttempts
    ensures Live(Retried(c, id, now))
  {
    hide NextTimeout, Resent;
  }

  lemma RetriedAccounted(c: Client, id: TxId, now: Time)
    requires Live(c) && Accounted(c) && id in c.t
    ensures Accounted(Retried(c, id, now))
  {
    hide NextTimeout, Resent;
    var d := Retried(c, id, now);
    assert d.t.Keys == c.t.Keys;
    assert |d.t| == |d.t.Keys| == |c.t.Keys| == |c.t|;
    forall x | x in d.t ensures d.t[x].tag == c.t[x].tag {
    }
  }

  lemma RetriedWritten(c: Client, id: TxId, now: Time)
    requires Live(c) && Written(c) && id in c.t && c.t[id].attempt < c.maxAttempts
    ensures Written(Retried(c, id, now))
  {
    hide NextTimeout, Resent;
    RewroteWritten(c, id);
  }

  lemma RetriedNotBefore(c: Client, id: TxId, now: Time)
    requires Live(c) && NotBefore(c) && id in c.t && Due(c.t[id].start, c.t[id].rto, c.t[id].attempt) <= now
    ensures NotBefore(Retried(c, id, now))
  {
    DueNext(c.t[id], now);
    hide Due, NextTimeout, Resent;
  }

  lemma RetriedSane(c: Client, id: TxId, now: Time)
    requires Sane(c) && id in c.t && c.t[id].attempt < c.maxAttempts
    requires Due(c.t[id].start, c.t[id].rto, c.t[id].attempt) <= now
    ensures Sane(Retried(c, id, now))
  {
    RetriedLive(c, id, now);
    RetriedAccounted(c, id, now);
    RetriedWritten(c, id, now);
    RetriedNotBefore(c, id, now);
  }

  /** Waiting out one more deadline makes the next one due: the waits are 1, 2, 3, ... RTOs. */
  lemma DueNext(x: Transaction, now: Time)
    requires Due(x.start, x.rto, x.attempt) <= now
    ensures Due(x.start, x.rto, x.attempt + 1) <= NextTimeout(x.(attempt := x.attempt + 1), now)
  {
    var k := x.attempt;
    Triangle(k);
    var n, m := (k + 1) * (k + 2) / 2, (k + 2) * (k + 3) / 2;
    assert m == n + (k + 2);
    assert x.rto * m == x.rto * n + x.rto * (k + 2);
    assert (k + 2) * x.rto == x.rto * (k + 2);
  }

  lemma {:induction false} Triangle(k: nat)
    ensures (k + 2) * (k + 3) / 2 == (k + 1) * (k + 2) / 2 + (k + 2)
  {
    assert (k + 2) * (k + 3) == (k + 1) * (k + 2) + 2 * (k + 2);
  }

  // Events and calls keep it.

  lemma FinishedLinked(c: Client, waiting: set<TxId>, id: TxId, e: Event, at: Time)
    requires Linked(c, waiting) && id in waiting
    ensures Linked(Finished(c, id, e, at), waiting - {id}) && Linked(Finished(Rewrote(c, id), id, e, at), waiting - {id})
  {
  }

  lemma RetriedLinked(c: Client, waiting: set<TxId>, id: TxId, now: Time)
    requires Linked(c, waiting) && id in waiting
    ensures Linked(Retried(c, id, now), waiting - {id})
  {
  }

  lemma RetriedOthers(c: Client, id: TxId, now: Time)
    requires id in c.t
    ensures forall x :: x in Retried(c, id, now).t && x != id ==> x in c.t && Retried(c, id, now).t[x] == c.t[x]
  {
    hide NextTimeout, Resent;
  }

  /** The other transactions, and those waiting, are as they were. */
  lemma OthersLate(c: Client, d: Client, waiting: set<TxId>, id: TxId, at: Time)
    requires Late(c, waiting, at) && forall x :: x in d.t && x != id ==> x in c.t && d.t[x] == c.t[x]
    ensures Late(d, waiting - {id}, at)
  {
  }

  /** A time-out delivered in a collection. */
  lemma TimeOutKeeps(c: Client, waiting: set<TxId>, id: TxId, at: Time, ans: Answer)
    requires Sane(c) && Linked(c, waiting) && Late(c, waiting, at) && id in waiting && at <= ans.now
    ensures var d := HandleEvent(c, Event(id, Some(TransactionTimeOut)), at, ans);
            Sane(d) && Linked(d, waiting - {id}) && Late(d, waiting - {id}, at)
  {
    var x, e := c.t[id], Event(id, Some(TransactionTimeOut));
    assert x.id == id && x.calls == 0 && x.attempt <= c.maxAttempts && Due(x.start, x.rto, x.attempt) < at;
    EventOutcome(c, waiting, e, at, ans);
    if c.maxAttempts <= x.attempt {
      TimeOutEnds(c, waiting, id, e, at);
    } else if ans.writeOk {
      TimeOutRetries(c, waiting, id, at, ans.now);
    } else {
      TimeOutFails(c, waiting, id, e.(error := Some(WriteFailed)), at);
    }
  }

  lemma TimeOutEnds(c: Client, waiting: set<TxId>, id: TxId, e: Event, at: Time)
    requires Sane(c) && Linked(c, waiting) && Late(c, waiting, at) && id in waiting && e.id == id
    requires c.maxAttempts == c.t[id].attempt && Due(c.t[id].start, c.t[id].rto, c.t[id].attempt) < at
    ensures var d := Finished(c, id, e, at); Sane(d) && Linked(d, waiting - {id}) && Late(d, waiting - {id}, at)
  {
    FinishedSane(c, id, e, at);
    FinishedLinked(c, waiting, id, e, at);
    OthersLate(c, Finished(c, id, e, at), waiting, id, at);
  }

  lemma TimeOutRetries(c: Client, waiting: set<TxId>, id: TxId, at: Time, now: Time)
    requires Sane(c) && Linked(c, waiting) && Late(c, waiting, at) && id in waiting && at <= now
    requires c.t[id].attempt < c.maxAttempts && Due(c.t[id].start, c.t[id].rto, c.t[id].attempt) < at
    ensures var d := Retried(c, id, now); Sane(d) && Linked(d, waiting - {id}) && Late(d, waiting - {id}, at)
  {
    assert id in c.t;
    hide Due, Live, Accounted, Written, NotBefore, Late, Linked, Retried;
    RetriedSane(c, id, now);
    RetriedLinked(c, waiting, id, now);
    RetriedOthers(c, id, now);
    OthersLate(c, Retried(c, id, now), waiting, id, at);
  }

  lemma TimeOutFails(c: Client, waiting: set<TxId>, id: TxId, e: Event, at: Time)
    requires Sane(c) && Linked(c, waiting) && Late(c, waiting, at) && id in waiting && e.id == id
    requires c.t[id].attempt < c.maxAttempts && e.error != Some(TransactionTimeOut)
    ensures var d := Finished(Rewrote(c, id), id, e, at); Sane(d) && Linked(d, waiting - {id}) && Late(d, waiting - {id}, at)
  {
    FailedSane(c, id, e, at);
    FinishedLinked(c, waiting, id, e, at);
    OthersLate(c, Finished(Rewrote(c, id), id, e, at), waiting, id, at);
  }

  lemma {:induction false} DeliveriesKeep(c: Client, order: seq<TxId>, waiting: set<TxId>, at: Time, answers: seq<Answer>)
    requires |answers| == |order| && (forall i :: 0 <= i < |answers| ==> at <= answers[i].now) && Enumerates(order, waiting)
    requires Sane(c) && Linked(c, waiting) && Late(c, waiting, at)
    ensures var d := DeliverAll(c, order, TransactionTimeOut, at, answers); Sane(d) && Linked(d, {})
    decreases |order|
  {
    hide HandleEvent, Sane, Late, Linked;
    if order != [] {
      EnumeratesRest(order, waiting);
      TimeOutKeeps(c, waiting, order[0], at, answers[0]);
      DeliveriesKeep(HandleEvent(c, Event(order[0], Some(TransactionTimeOut)), at, answers[0]), order[1..], waiting - {order[0]}, at, answers[1..]);
    } else {
      assert waiting == {};
    }
  }

  function SetOf<T>(s: seq<T>): set<T> {
    set i | 0 <= i < |s| :: s[i]
  }

  /** After any number of the deliveries, the ids still waiting are those of the others. */
  lemma {:induction false} DeliveredSoFar(c: Client, order: seq<TxId>, waiting: set<TxId>, at: Time, answers: seq<Answer>, k: nat)
    requires |answers| == |order| && (forall i :: 0 <= i < |answers| ==> at <= answers[i].now) && Enumerates(order, waiting)
    requires Sane(c) && Linked(c, waiting) && Late(c, waiting, at) && k <= |order|
    ensures var d := DeliverAll(c, order[..k], TransactionTimeOut, at, answers[..k]); Sane(d) && Linked(d, SetOf(order[k..]))
    decreases k
  {
    hide HandleEvent, DeliverAll, Sane, Late, Linked, Enumerates, SetOf;
    if k == 0 {
      NoneDelivered(c, order, waiting, at, answers);
    } else {
      EnumeratesRest(order, waiting);
      TimeOutKeeps(c, waiting, order[0], at, answers[0]);
      FirstDelivered(c, order, at, answers, k);
      DeliveredSoFar(HandleEvent(c, Event(order[0], Some(TransactionTimeOut)), at, answers[0]), order[1..], waiting - {order[0]}, at, answers[1..], k - 1);
    }
  }

  lemma NoneDelivered(c: Client, order: seq<TxId>, waiting: set<TxId>, at: Time, answers: seq<Answer>)
    requires |answers| == |order| && Enumerates(order, waiting)
    ensures DeliverAll(c, order[..0], TransactionTimeOut, at, answers[..0]) == c && SetOf(order[0..]) == waiting
  {
    assert order[0..] == order;
  }

  lemma FirstDelivered(c: Client, order: seq<TxId>, at: Time, answers: seq<Answer>, k: nat)
    requires |answers| == |order| && 0 < k <= |order|
    ensures DeliverAll(c, order[..k], TransactionTimeOut, at, answers[..k])
         == DeliverAll(HandleEvent(c, Event(order[0], Some(TransactionTimeOut)), at, answers[0]), order[1..][..k - 1], TransactionTimeOut, at, answers[1..][..k - 1])
    ensures order[1..][k - 1..] == order[k..]
  {
    hide HandleEvent;
    assert order[..k][1..] == order[1..][..k - 1] && answers[..k][1..] == answers[1..][..k - 1];
  }

  lemma EnumeratesRest<T(!new)>(order: seq<T>, ids: set<T>)
    requires Enumerates(order, ids) && order != []
    ensures order[0] in ids && Enumerates(order[1..], ids - {order[0]})
  {
    var rest := order[1..];
    forall x | x in ids - {order[0]} ensures x in rest {
      var k :| 0 <= k < |order| && order[k] == x;
      assert rest[k - 1] == x;
    }
    forall i | 0 <= i < |rest| ensures rest[i] in ids - {order[0]} {
      assert rest[i] == order[i + 1];
    }
    forall i, j | 0 <= i < j < |rest| ensures rest[i] != rest[j] {
      assert order[i + 1] != order[j + 1];
    }
  }

  /** Taking registrations from the agent leaves the rest of the invariant. */
  lemma FewerRegistered(c: Client, a: AgentState)
    requires Sane(c) && a.transactions.Keys <= c.agent.transactions.Keys
    requires forall id :: id in a.transactions ==> a.transactions[id] == c.agent.transactions[id]
    ensures Sane(c.(agent := a))
  {
    hide Due;
  }

  /** After a collection the ids it took are waiting, and late. */
  lemma CollectWaiting(c: Client, gcTime: Time)
    requires NotBefore(c) && Linked(c, {})
    ensures var d := c.(agent := CollectSection(c.agent, gcTime));
            Linked(d, Expired(c.agent, gcTime)) && Late(d, Expired(c.agent, gcTime), gcTime)
  {
    hide Due;
  }

  lemma CollectKeeps(c: Client, gcTime: Time, order: seq<TxId>, answers: seq<Answer>)
    requires Inv(c) && Possible(c, CallCollect(gcTime, order, answers))
    ensures Inv(Collect(c, gcTime, order, answers))
  {
    hide Live, Accounted, Written, NotBefore, Late, DeliverAll;
    if !c.agent.closed {
      var c1 := c.(agent := CollectSection(c.agent, gcTime));
      FewerRegistered(c, c1.agent);
      CollectWaiting(c, gcTime);
      DeliveriesKeep(c1, order, Expired(c.agent, gcTime), gcTime, answers);
    }
  }

  /** A message for a transaction ends it, whatever attempt it is at. */
  lemma MessageEnds(c: Client, id: TxId, at: Time, ans: Answer)
    requires Sane(c) && Linked(c, {id})
    ensures var e := Event(id, None); HandleEvent(c, e, at, ans) == Finished(c, id, e, at)
    ensures var d := Finished(c, id, Event(id, None), at); Sane(d) && Linked(d, {})
  {
    var e := Event(id, None);
    assert id in c.t && c.t[id].id == id && c.t[id].calls == 0;
    hide Due, Live, Accounted, Written, NotBefore, HandleEvent, Finished;
    EventOutcome(c, {id}, e, at, ans);
    FinishedSane(c, id, e, at);
    FinishedLinked(c, {id}, id, e, at);
    assert {id} - {id} == {};
  }

  lemma UnmatchedKeeps(c: Client, unmatched: seq<Event>)
    requires Sane(c)
    ensures Sane(c.(unmatched := unmatched))
  {
    hide Due;
  }

  lemma ProcessWaiting(c: Client, id: TxId)
    requires Linked(c, {})
    ensures Linked(c.(agent := ProcessSection(c.agent, id)), if id in c.t then {id} else {})
  {
  }

  lemma ProcessKeeps(c: Client, id: TxId, ans: Answer)
    requires Inv(c)
    ensures Inv(Process(c, id, ans))
  {
    hide Live, Accounted, Written, NotBefore, Resend;
    if !c.agent.closed {
      var c1 := c.(agent := ProcessSection(c.agent, id));
      FewerRegistered(c, c1.agent);
      ProcessWaiting(c, id);
      if id in c.t {
        MessageEnds(c1, id, ans.now, ans);
      } else {
        UnmatchedKeeps(c1, c1.unmatched + [Event(id, None)]);
      }
    }
  }

  // Starting.

  function Began(c: Client, id: TxId, raw: Bytes, now: Time): Client {
    var x := Transaction(c.made, id, 0, 0, now, c.rto, raw);
    c.(made := c.made + 1, t := c.t[id := x], agent := c.agent.(transactions := c.agent.transactions[id := now + c.rto]),
       sent := Wrote(c, c.made, raw).sent, wire := c.wire + [raw], accepted := c.accepted[c.made := Accepted(id, now, c.rto, raw)])
  }

  function RolledBack(c: Client, raw: Bytes): Client {
    c.(made := c.made + 1, sent := Wrote(c, c.made, raw).sent, wire := c.wire + [raw])
  }

  /** What a start of an open client does, whatever its agent has. If the client has the id it refuses. If
      only the agent refuses, the transaction stays in the map of the client. Otherwise the transaction is
      registered in both maps, or in neither if the write fails. */
  lemma StartOutcome(c: Client, id: TxId, raw: Bytes, ans: Answer)
    requires !c.closed
    ensures var x := Transaction(c.made, id, 0, 0, ans.now, c.rto, raw);
            Start(c, id, raw, true, ans) ==
            if id in c.t then Result(c.(made := c.made + 1), Some(TransactionExists))
            else if c.agent.closed then Result(c.(made := c.made + 1, t := c.t[id := x]), Some(AgentClosed))
            else if id in c.agent.transactions then Result(c.(made := c.made + 1, t := c.t[id := x]), Some(TransactionExists))
            else if ans.writeOk then Result(Began(c, id, raw, ans.now), None)
            else Result(RolledBack(c, raw), Some(WriteFailed))
  {
    hide WriteStarted;
    if id !in c.t && !c.agent.closed && id !in c.agent.transactions {
      WriteOutcome(c, id, raw, ans);
    }
  }

  /** The first write, from both maps having the transaction. */
  lemma WriteOutcome(c: Client, id: TxId, raw: Bytes, ans: Answer)
    requires !c.closed && !c.agent.closed && id !in c.t && id !in c.agent.transactions
    ensures var x := Transaction(c.made, id, 0, 0, ans.now, c.rto, raw);
            var a := c.agent.(transactions := c.agent.transactions[id := NextTimeout(x, x.start)]);
            WriteStarted(c.(made := c.made + 1, t := c.t[id := x], agent := a), x, ans) ==
            if ans.writeOk then Result(Began(c, id, raw, ans.now), None)
            else Result(RolledBack(c, raw), Some(WriteFailed))
  {
    hide Stop;
    var x := Transaction(c.made, id, 0, 0, ans.now, c.rto, raw);
    var deadline := NextTimeout(x, x.start);
    assert deadline == ans.now + c.rto;
    var d := RolledBack(c, raw).(agent := c.agent.(transactions := c.agent.transactions[id := deadline]));
    assert c.t[id := x] - {id} == c.t;
    assert c.agent.transactions[id := deadline] - {id} == c.agent.transactions;
    StopIgnored(d, id, ans.now, ans);
  }

  lemma MadeKeeps(c: Client)
    requires Sane(c)
    ensures Sane(c.(made := c.made + 1)) && c.made !in c.sent && c.made !in c.accepted
  {
    hide Due;
  }

  /** A first write that failed leaves its trace only in what was written. */
  lemma RolledBackKeeps(c: Client, raw: Bytes)
    requires Sane(c)
    ensures Sane(RolledBack(c, raw))
  {
    hide Due, Resent;
    RolledBackWritten(c, raw);
    hide Written;
  }

  lemma RolledBackWritten(c: Client, raw: Bytes)
    requires Accounted(c) && Written(c) && Live(c)
    ensures Written(RolledBack(c, raw))
  {
    hide Resent;
  }

  lemma BeganLive(c: Client, id: TxId, raw: Bytes, now: Time)
    requires Live(c) && Accounted(c) && id !in c.t
    ensures Live(Began(c, id, raw, now))
  {
  }

  lemma BeganAccounted(c: Client, id: TxId, raw: Bytes, now: Time)
    requires Accounted(c) && id !in c.t
    ensures Accounted(Began(c, id, raw, now))
  {
    assert c.made !in c.accepted;
    OneMore(c.t, id, Transaction(c.made, id, 0, 0, now, c.rto, raw));
    OneMore(c.accepted, c.made, Accepted(id, now, c.rto, raw));
  }

  lemma OneMore<K, V>(m: map<K, V>, k: K, v: V)
    requires k !in m
    ensures |m[k := v]| == |m| + 1
  {
    assert m[k := v].Keys == m.Keys + {k};
  }

  lemma BeganWritten(c: Client, id: TxId, raw: Bytes, now: Time)
    requires Live(c) && Accounted(c) && Written(c) && id !in c.t
    ensures Written(Began(c, id, raw, now))
  {
    hide Resent;
  }

  lemma BeganNotBefore(c: Client, id: TxId, raw: Bytes, now: Time)
    requires Accounted(c) && NotBefore(c) && id !in c.t
    ensures NotBefore(Began(c, id, raw, now))
  {
    assert Due(now, c.rto, 0) == now + c.rto;
    hide Due;
  }

  lemma BeganSane(c: Client, id: TxId, raw: Bytes, now: Time)
    requires Sane(c) && id !in c.t
    ensures Sane(Began(c, id, raw, now))
  {
    BeganLive(c, id, raw, now);
    BeganAccounted(c, id, raw, now);
    BeganWritten(c, id, raw, now);
    BeganNotBefore(c, id, raw, now);
  }

  lemma StartKeeps(c: Client, id: TxId, raw: Bytes, withHandler: bool, ans: Answer)
    requires Inv(c)
    ensures Inv(Start(c, id, raw, withHandler, ans).c)
  {
    hide Start, Began, Wrote, Live, Accounted, Written, NotBefore;
    if c.closed || !withHandler {
      StartIdle(c, id, raw, withHandler, ans);
      WireSane(c, c.wire + [raw]);
    } else {
      MadeKeeps(c);
      StartOutcome(c, id, raw, ans);
      if id !in c.t {
        RolledBackKeeps(c, raw);
        BeganSane(c, id, raw, ans.now);
        BeganLinked(c, id, raw, ans.now);
      }
    }
  }

  lemma StartIdle(c: Client, id: TxId, raw: Bytes, withHandler: bool, ans: Answer)
    requires c.closed || !withHandler
    ensures Start(c, id, raw, withHandler, ans).c == if c.closed then c else c.(wire := c.wire + [raw])
  {
  }

  lemma WireSane(c: Client, wire: seq<Bytes>)
    requires Sane(c)
    ensures Sane(c.(wire := wire))
  {
    hide Due;
  }

  lemma BeganLinked(c: Client, id: TxId, raw: Bytes, now: Time)
    requires Linked(c, {})
    ensures Linked(Began(c, id, raw, now), {}) && !Began(c, id, raw, now).closed
  {
  }

  // Closing.

  /** A closed client does nothing with an event. */
  lemma {:induction false} ClosedIgnores(c: Client, order: seq<TxId>, error: Error, at: Time, answers: seq<Answer>)
    requires c.closed && |answers| == |order|
    ensures DeliverAll(c, order, error, at, answers) == c
    decreases |order|
  {
    if order != [] {
      ClosedIgnores(c, order[1..], error, at, answers[1..]);
    }
  }

  lemma ClosedKeeps(c: Client, a: AgentState)
    requires Sane(c) && a.transactions == map[]
    ensures Sane(c.(closed := true, agent := a))
  {
    hide Due;
  }

  lemma CloseKeeps(c: Client, order: seq<TxId>, answers: seq<Answer>)
    requires Inv(c) && |answers| == |order|
    ensures var d := Close(c, order, answers).c;
            Inv(d) && d == c.(closed := true, agent := if c.closed then c.agent else CloseSection(c.agent))
  {
    hide Live, Accounted, Written, NotBefore;
    if !c.closed {
      ClosedIgnores(c.(closed := true), order, AgentClosed, 0, answers);
      ClosedKeeps(c, CloseSection(c.agent));
    }
  }

  lemma RTOKeeps(c: Client, rto: int)
    requires Inv(c)
    ensures Inv(SetRTO(c, rto))
  {
    hide Live, Accounted, Written, NotBefore;
    RTOSane(c, rto);
  }

  lemma RTOSane(c: Client, rto: int)
    requires Sane(c)
    ensures Sane(c.(rto := rto))
  {
    hide Due;
  }

  // Runs.

  lemma NextKeeps(c: Client, call: Call)
    requires Inv(c) && Possible(c, call)
    ensures Inv(Next(c, call))
  {
    hide Inv, Start, Collect, Process, Close, SetRTO;
    match call {
      case CallStart(id, raw, withHandler, ans) => StartKeeps(c, id, raw, withHandler, ans);
      case CallCollect(gcTime, order, answers) => CollectKeeps(c, gcTime, order, answers);
      case CallProcess(id, ans) => ProcessKeeps(c, id, ans);
      case CallSetRTO(rto) => RTOKeeps(c, rto);
      case CallClose(order, answers) => CloseKeeps(c, order, answers);
    }
  }

  // What events never change.

  ghost predicate SameBooks(c: Client, d: Client) {
    d.maxAttempts == c.maxAttempts && d.accepted == c.accepted && d.made == c.made
  }

  lemma StopKeepsBooks(c: Client, id: TxId, at: Time, ans: Answer)
    requires id !in c.t
    ensures SameBooks(c, Stop(c, id, at, ans).c)
  {
  }

  lemma ResendKeepsBooks(c: Client, x: Transaction, e: Event, at: Time, ans: Answer)
    ensures SameBooks(c, Resend(c, x, e, at, ans))
  {
    hide Stop, Resent, NextTimeout;
    var c1 := AgentStart(Register(c, x).c, x.id, NextTimeout(x, ans.now)).c;
    StopKeepsBooks(Forget(Wrote(c1, x.tag, Resent(x.raw)), x.id), x.id, at, ans);
  }

  lemma EventKeepsBooks(c: Client, e: Event, at: Time, ans: Answer)
    ensures SameBooks(c, HandleEvent(c, e, at, ans))
  {
    hide Resend;
    if !c.closed && e.id in c.t {
      ResendKeepsBooks(Forget(c, e.id), c.t[e.id].(attempt := c.t[e.id].attempt + 1), e, at, ans);
    }
  }

  lemma {:induction false} DeliveriesKeepBooks(c: Client, order: seq<TxId>, error: Error, at: Time, answers: seq<Answer>)
    requires |answers| == |order|
    ensures SameBooks(c, DeliverAll(c, order, error, at, answers))
    decreases |order|
  {
    hide HandleEvent;
    if order != [] {
      EventKeepsBooks(c, Event(order[0], Some(error)), at, answers[0]);
      DeliveriesKeepBooks(HandleEvent(c, Event(order[0], Some(error)), at, answers[0]), order[1..], error, at, answers[1..]);
    }
  }

  lemma NextBooks(c: Client, call: Call)
    requires Possible(c, call)
    ensures var d := Next(c, call);
            && d.maxAttempts == c.maxAttempts && c.made <= d.made
            && (d.accepted == c.accepted || (c.made < d.made && d.accepted - {c.made} == c.accepted - {c.made}))
  {
    hide HandleEvent, DeliverAll, Stop;
    match call {
      case CallStart(id, raw, _, ans) =>
        var x := Transaction(c.made, id, 0, 0, ans.now, c.rto, raw);
        var c1 := AgentStart(Register(c.(made := c.made + 1), x).c, id, NextTimeout(x, x.start)).c;
        StopKeepsBooks(Forget(Wrote(c1, x.tag, raw), id), id, ans.now, ans);
      case CallCollect(gcTime, order, answers) =>
        DeliveriesKeepBooks(c.(agent := CollectSection(c.agent, gcTime)), order, TransactionTimeOut, gcTime, answers);
      case CallProcess(id, ans) =>
        EventKeepsBooks(c.(agent := ProcessSection(c.agent, id)), Event(id, None), ans.now, ans);
      case CallSetRTO(_) =>
      case CallClose(order, answers) =>
        DeliveriesKeepBooks(c.(closed := true), order, AgentClosed, 0, answers);
    }
  }

  lemma NewClientInv(rto: int, maxAttempts: nat, hasHandler: bool)
    ensures Inv(NewClient(rto, maxAttempts, hasHandler))
  {
  }

  /** Every state of every run of a client satisfies the invariant. */
  lemma {:induction false} RunInv(states: seq<Client>, calls: seq<Call>, rto: int, maxAttempts: nat, hasHandler: bool, n: nat)
    requires IsRun(states, calls) && states[0] == NewClient(rto, maxAttempts, hasHandler) && n < |states|
    ensures Inv(states[n]) && states[n].maxAttempts == maxAttempts
    decreases n
  {
    hide Inv, Next;
    if n == 0 {
      NewClientInv(rto, maxAttempts, hasHandler);
    } else {
      RunInv(states, calls, rto, maxAttempts, hasHandler, n - 1);
      assert Possible(states[n - 1], calls[n - 1]) && states[n - 1 + 1] == Next(states[n - 1], calls[n - 1]);
      NextKeeps(states[n - 1], calls[n - 1]);
      NextBooks(states[n - 1], calls[n - 1]);
    }
  }
}
