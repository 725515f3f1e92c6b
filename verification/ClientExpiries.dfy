/** How often the transactions of a run expire. */
module ClientExpiries {
  import opened Base
  import opened Wire
  import opened AgentSpec
  import opened ClientSpec
  import opened ClientProofs
  import opened ClientTheorems

  /** In this call the agent reports the transaction as expired. */
  ghost predicate Expires(c: Client, call: Call, tag: nat) {
    call.CallCollect? && exists id :: id in Expired(c.agent, call.gcTime) && id in c.t && c.t[id].tag == tag
  }

  ghost function Expiries(states: seq<Client>, calls: seq<Call>, n: nat, tag: nat): nat
    requires n <= |calls| && |states| == |calls| + 1
  {
    if n == 0 then 0
    else Expiries(states, calls, n - 1, tag) + if Expires(states[n - 1], calls[n - 1], tag) then 1 else 0
  }

  function Tried(x: Transaction): Transaction {
    x.(attempt := x.attempt + 1)
  }

  /** What is in the map after an event was there before, with one attempt more if it was the one to expire. */
  lemma EventAttempts(c: Client, waiting: set<TxId>, id: TxId, at: Time, ans: Answer)
    requires Live(c) && Linked(c, waiting) && id in waiting
    ensures var d := HandleEvent(c, Event(id, Some(TransactionTimeOut)), at, ans);
            forall x :: x in d.t ==> x in c.t && d.t[x] == if x == id then Tried(c.t[x]) else c.t[x]
  {
    assert c.t[id].id == id && c.t[id].calls == 0;
    hide Live, HandleEvent, Resent, NextTimeout;
    EventOutcome(c, waiting, Event(id, Some(TransactionTimeOut)), at, ans);
  }

  lemma {:induction false} DeliveriesAttempts(c: Client, order: seq<TxId>, waiting: set<TxId>, at: Time, answers: seq<Answer>)
    requires |answers| == |order| && (forall i :: 0 <= i < |answers| ==> at <= answers[i].now) && Enumerates(order, waiting)
    requires Sane(c) && Linked(c, waiting) && Late(c, waiting, at)
    ensures var d := DeliverAll(c, order, TransactionTimeOut, at, answers);
            forall x :: x in d.t ==> x in c.t && d.t[x] == if x in waiting then Tried(c.t[x]) else c.t[x]
    decreases |order|
  {
    hide HandleEvent, Live, Accounted, Written, NotBefore, Late, Linked, Tried;
    if order != [] {
      EnumeratesRest(order, waiting);
      EventAttempts(c, waiting, order[0], at, answers[0]);
      TimeOutKeeps(c, waiting, order[0], at, answers[0]);
      DeliveriesAttempts(HandleEvent(c, Event(order[0], Some(TransactionTimeOut)), at, answers[0]), order[1..], waiting - {order[0]}, at, answers[1..]);
    }
  }

  /** A collection adds one attempt to what expired in it and is still there. */
  lemma CollectAttempts(c: Client, gcTime: Time, order: seq<TxId>, answers: seq<Answer>)
    requires Inv(c) && Possible(c, CallCollect(gcTime, order, answers))
    ensures var d := Collect(c, gcTime, order, answers);
            forall x :: x in d.t ==> x in c.t && d.t[x] == if x in Expired(c.agent, gcTime) then Tried(c.t[x]) else c.t[x]
  {
    hide Live, Accounted, Written, NotBefore, Late, DeliverAll, Tried;
    if !c.agent.closed {
      var c1 := c.(agent := CollectSection(c.agent, gcTime));
      FewerRegistered(c, c1.agent);
      CollectWaiting(c, gcTime);
      DeliveriesAttempts(c1, order, Expired(c.agent, gcTime), gcTime, answers);
    }
  }

  lemma ProcessAttempts(c: Client, id: TxId, ans: Answer)
    ensures var d := Process(c, id, ans); forall x :: x in d.t ==> x in c.t && d.t[x] == c.t[x]
  {
    hide Resend;
  }

  lemma StartAttempts(c: Client, id: TxId, raw: Bytes, withHandler: bool, ans: Answer)
    requires Inv(c)
    ensures var d := Start(c, id, raw, withHandler, ans).c;
            forall x :: x in d.t ==> (x in c.t && d.t[x] == c.t[x]) || (d.t[x].tag == c.made && d.t[x].attempt == 0)
  {
    hide Start, Inv;
    ErrorNotAccepted(c, id, raw, withHandler, ans);
  }

  lemma CloseAttempts(c: Client, order: seq<TxId>, answers: seq<Answer>)
    requires Inv(c) && |answers| == |order|
    ensures Close(c, order, answers).c.t == c.t
  {
    hide Close, Inv;
    CloseKeeps(c, order, answers);
  }

  /** What is in the map after a call was there before, with one attempt more if it expired, or is new. */
  lemma StepAttempts(c: Client, call: Call, id: TxId)
    requires Inv(c) && Possible(c, call) && id in Next(c, call).t
    ensures var x := Next(c, call).t[id];
            || (id in c.t && x == if Expires(c, call, c.t[id].tag) then Tried(c.t[id]) else c.t[id])
            || (x.tag == c.made && x.attempt == 0)
  {
    hide Start, Collect, Process, Close, Tried, Accounted, Written, NotBefore;
    match call {
      case CallStart(x, raw, withHandler, ans) => StartAttempts(c, x, raw, withHandler, ans);
      case CallCollect(gcTime, order, answers) => CollectAttempts(c, gcTime, order, answers);
      case CallProcess(x, ans) => ProcessAttempts(c, x, ans);
      case CallSetRTO(_) =>
      case CallClose(order, answers) => CloseAttempts(c, order, answers);
    }
  }

  /** The counts are right for a state. */
  ghost predicate Counted(c: Client, tag: nat, count: nat) {
    && count <= c.maxAttempts + 1
    && (tag >= c.made ==> count == 0)
    && (forall id :: id in c.t && c.t[id].tag == tag ==> count == c.t[id].attempt)
  }

  lemma LiveTag(c: Client, id: TxId)
    requires Inv(c) && id in c.t
    ensures c.t[id].tag < c.made && c.t[id].attempt <= c.maxAttempts
  {
    hide Written, NotBefore;
  }

  /** One that expires was made, and had attempts that were counted. */
  lemma ExpiresCounted(c: Client, call: Call, tag: nat, count: nat)
    requires Inv(c) && Counted(c, tag, count) && Expires(c, call, tag)
    ensures tag < c.made && count <= c.maxAttempts
  {
    hide Inv;
    var id :| id in Expired(c.agent, call.gcTime) && id in c.t && c.t[id].tag == tag;
    LiveTag(c, id);
  }

  lemma CountedNext(c: Client, call: Call, tag: nat, count: nat, id: TxId)
    requires Inv(c) && Possible(c, call) && Counted(c, tag, count)
    requires id in Next(c, call).t && Next(c, call).t[id].tag == tag
    ensures Next(c, call).t[id].attempt == count + if Expires(c, call, tag) then 1 else 0
  {
    hide Next, Possible, Expires, Inv;
    StepAttempts(c, call, id);
    if Expires(c, call, tag) {
      ExpiresCounted(c, call, tag, count);
    }
  }

  lemma CountedStep(c: Client, call: Call, tag: nat, count: nat)
    requires Inv(c) && Possible(c, call) && Counted(c, tag, count)
    ensures Counted(Next(c, call), tag, count + if Expires(c, call, tag) then 1 else 0)
  {
    var d, count' := Next(c, call), count + if Expires(c, call, tag) then 1 else 0;
    forall id | id in d.t && d.t[id].tag == tag ensures d.t[id].attempt == count' {
      CountedNext(c, call, tag, count, id);
    }
    hide Next, Possible, Expires, Inv;
    NextBooks(c, call);
    if Expires(c, call, tag) {
      ExpiresCounted(c, call, tag, count);
    }
  }

  lemma CountedFirst(states: seq<Client>, calls: seq<Call>, maxAttempts: nat, tag: nat)
    requires IsClientRun(states, calls, maxAttempts)
    ensures |states| == |calls| + 1 && Counted(states[0], tag, 0)
  {
  }

  lemma {:induction false} CountedAt(states: seq<Client>, calls: seq<Call>, maxAttempts: nat, n: nat, tag: nat)
    requires IsClientRun(states, calls, maxAttempts) && n < |states| == |calls| + 1
    ensures Counted(states[n], tag, Expiries(states, calls, n, tag))
    decreases n
  {
    CountedFirst(states, calls, maxAttempts, tag);
    hide IsClientRun, Expires, Inv, Counted;
    if n > 0 {
      CountedAt(states, calls, maxAttempts, n - 1, tag);
      CountedOne(states, calls, maxAttempts, n - 1, tag, Expiries(states, calls, n - 1, tag));
    }
  }

  lemma CountedOne(states: seq<Client>, calls: seq<Call>, maxAttempts: nat, n: nat, tag: nat, count: nat)
    requires IsClientRun(states, calls, maxAttempts) && n < |calls| && |states| == |calls| + 1 && Counted(states[n], tag, count)
    ensures Counted(states[n + 1], tag, count + if Expires(states[n], calls[n], tag) then 1 else 0)
  {
    StepAt(states, calls, maxAttempts, n);
    InvAt(states, calls, maxAttempts, n);
    hide IsClientRun, Next, Possible, Expires, Inv, Counted;
    CountedStep(states[n], calls[n], tag, count);
  }

  /** In every run no transaction expires more than `maxAttempts` + 1 times; one in the map has expired as
      often as it was tried again, and one that was not made yet never has. */
  lemma BoundedExpiries(states: seq<Client>, calls: seq<Call>, maxAttempts: nat, n: nat, tag: nat)
    requires IsClientRun(states, calls, maxAttempts) && n < |states|
    ensures |states| == |calls| + 1 && Expiries(states, calls, n, tag) <= maxAttempts + 1
    ensures tag >= states[n].made ==> Expiries(states, calls, n, tag) == 0
    ensures forall id :: id in states[n].t && states[n].t[id].tag == tag ==> Expiries(states, calls, n, tag) == states[n].t[id].attempt
  {
    CountedFirst(states, calls, maxAttempts, tag);
    hide IsClientRun, Inv;
    CountedAt(states, calls, maxAttempts, n, tag);
    InvAt(states, calls, maxAttempts, n);
  }
}
