/** What follows for every state of every run of a client. */
module ClientTheorems {
  import opened Base
  import opened Wire
  import opened AgentSpec
  import opened ClientSpec
  import opened ClientProofs

  /** A run from a new client. */
  ghost predicate IsClientRun(states: seq<Client>, calls: seq<Call>, maxAttempts: nat) {
    && IsRun(states, calls)
    && exists rto: int, hasHandler: bool :: states[0] == NewClient(rto, maxAttempts, hasHandler)
  }

  lemma InvAt(states: seq<Client>, calls: seq<Call>, maxAttempts: nat, n: nat)
    requires IsClientRun(states, calls, maxAttempts) && n < |states|
    ensures Inv(states[n]) && states[n].maxAttempts == maxAttempts
  {
    hide Inv, IsRun;
    var rto: int, hasHandler: bool :| states[0] == NewClient(rto, maxAttempts, hasHandler);
    RunInv(states, calls, rto, maxAttempts, hasHandler, n);
  }

  /** While the client is open, its ids are exactly those of the agent. */
  lemma IdsAgree(states: seq<Client>, calls: seq<Call>, maxAttempts: nat, n: nat)
    requires IsClientRun(states, calls, maxAttempts) && n < |states|
    ensures !states[n].closed ==> !states[n].agent.closed && states[n].t.Keys == states[n].agent.transactions.Keys
    ensures states[n].closed ==> states[n].agent.closed && states[n].agent.transactions == map[]
  {
    hide IsRun, NewClient, Sane;
    InvAt(states, calls, maxAttempts, n);
  }

  /** During a collection, after any number of its deliveries, the ids of the client are those of the agent
      and those still to be delivered. */
  lemma DuringCollection(states: seq<Client>, calls: seq<Call>, maxAttempts: nat, n: nat, k: nat)
    requires IsClientRun(states, calls, maxAttempts) && n < |calls| && calls[n].CallCollect? && !states[n].closed
    requires |calls[n].answers| == |calls[n].order| && k <= |calls[n].order|
    ensures var c, call := states[n], calls[n];
            var d := DeliverAll(c.(agent := CollectSection(c.agent, call.gcTime)), call.order[..k], TransactionTimeOut, call.gcTime, call.answers[..k]);
            Linked(d, SetOf(call.order[k..]))
  {
    StepAt(states, calls, maxAttempts, n);
    InvAt(states, calls, maxAttempts, n);
    hide IsClientRun, Live, Accounted, Written, NotBefore, Late, DeliverAll, Next;
    var c, call := states[n], calls[n];
    var c1 := c.(agent := CollectSection(c.agent, call.gcTime));
    FewerRegistered(c, c1.agent);
    CollectWaiting(c, call.gcTime);
    DeliveredSoFar(c1, call.order, Expired(c.agent, call.gcTime), call.gcTime, call.answers, k);
  }

  // Exactly once.

  function TagsOf(callbacks: seq<Callback>): set<nat> {
    set i | 0 <= i < |callbacks| :: callbacks[i].tag
  }

  lemma {:induction false} TagsCount(callbacks: seq<Callback>)
    requires forall i, j :: 0 <= i < j < |callbacks| ==> callbacks[i].tag != callbacks[j].tag
    ensures |TagsOf(callbacks)| == |callbacks|
  {
    if callbacks != [] {
      var n := |callbacks| - 1;
      var front := callbacks[..n];
      TagsCount(front);
      assert forall i :: 0 <= i < n ==> front[i] == callbacks[i];
      assert TagsOf(callbacks) == TagsOf(front) + {callbacks[n].tag};
    }
  }

  function LiveTags(t: map<TxId, Transaction>): set<nat> {
    set id | id in t :: t[id].tag
  }

  lemma {:induction false} LiveCount(t: map<TxId, Transaction>)
    requires forall id, id' :: id in t && id' in t && id != id' ==> t[id].tag != t[id'].tag
    ensures |LiveTags(t)| == |t|
    decreases |t|
  {
    if t != map[] {
      var id :| id in t;
      OneLess(t, id);
      LiveCount(t - {id});
      LiveWithout(t, id);
    }
  }

  lemma LiveWithout(t: map<TxId, Transaction>, id: TxId)
    requires id in t && forall x :: x in t && x != id ==> t[x].tag != t[id].tag
    ensures |LiveTags(t)| == |LiveTags(t - {id})| + 1
  {
    var rest := t - {id};
    assert forall x :: x in rest ==> rest[x] == t[x];
    assert LiveTags(t) == LiveTags(rest) + {t[id].tag};
  }

  lemma Covers(all: set<nat>, a: set<nat>, b: set<nat>)
    requires a <= all && b <= all && a !! b && |a| + |b| == |all|
    ensures a + b == all
  {
    var rest := all - (a + b);
    assert all == (a + b) + rest;
    assert |a + b| == |a| + |b|;
  }

  lemma StepAt(states: seq<Client>, calls: seq<Call>, maxAttempts: nat, n: nat)
    requires IsClientRun(states, calls, maxAttempts) && n + 1 < |states|
    ensures n < |calls| && Possible(states[n], calls[n]) && states[n + 1] == Next(states[n], calls[n])
  {
  }

  /** An error from `Start` leaves the maps, the accepted transactions and the calls as they were; a success
      adds exactly one new transaction to both maps and to those accepted. */
  lemma ErrorNotAccepted(c: Client, id: TxId, raw: Bytes, withHandler: bool, ans: Answer)
    requires Inv(c)
    ensures var r := Start(c, id, raw, withHandler, ans);
            && r.c.callbacks == c.callbacks && r.c.closed == c.closed
            && if r.err.Some? || !withHandler then
                 r.c.accepted == c.accepted && r.c.t == c.t && r.c.agent == c.agent
               else
                 && c.made !in c.accepted && r.c.accepted == c.accepted[c.made := Accepted(id, ans.now, c.rto, raw)]
                 && id !in c.t && r.c.t == c.t[id := Transaction(c.made, id, 0, 0, ans.now, c.rto, raw)]
                 && r.c.agent == c.agent.(transactions := c.agent.transactions[id := ans.now + c.rto])
  {
    hide Live, Written, NotBefore;
    if !c.closed && withHandler {
      hide Start;
      StartOutcome(c, id, raw, ans);
    }
  }

  /** Of the transactions that were accepted, each is either in the map or had its handler called, never
      both; a handler is called at most once, with the id of its own transaction. The calls of `Start` with a
      handler that returned no error are as many as the transactions in the map and the calls of handlers. */
  lemma ExactlyOnce(states: seq<Client>, calls: seq<Call>, maxAttempts: nat, n: nat)
    requires IsClientRun(states, calls, maxAttempts) && n < |states|
    ensures var c := states[n];
            && Starts(states, calls, n) == |c.accepted| == |c.t| + |c.callbacks|
            && c.accepted.Keys == LiveTags(c.t) + TagsOf(c.callbacks) && LiveTags(c.t) !! TagsOf(c.callbacks)
            && (forall i, j :: 0 <= i < j < |c.callbacks| ==> c.callbacks[i].tag != c.callbacks[j].tag)
            && (forall i :: 0 <= i < |c.callbacks| ==>
                  c.callbacks[i].tag in c.accepted && c.callbacks[i].event.id == c.accepted[c.callbacks[i].tag].id)
  {
    var c := states[n];
    StartsAccepted(states, calls, maxAttempts, n);
    InvAt(states, calls, maxAttempts, n);
    hide IsClientRun, Written, NotBefore, Starts;
    TagsCount(c.callbacks);
    LiveCount(c.t);
    Covers(c.accepted.Keys, LiveTags(c.t), TagsOf(c.callbacks));
  }

  /** The call is a `Start` with a handler that returns no error. */
  predicate Succeeds(c: Client, call: Call) {
    call.CallStart? && call.withHandler && Start(c, call.id, call.raw, true, call.ans).err.None?
  }

  function Starts(states: seq<Client>, calls: seq<Call>, n: nat): nat
    requires n <= |calls| < |states|
  {
    if n == 0 then 0 else Starts(states, calls, n - 1) + if Succeeds(states[n - 1], calls[n - 1]) then 1 else 0
  }

  /** Only such a call accepts a transaction. */
  lemma AcceptedStep(c: Client, call: Call)
    requires Inv(c) && Possible(c, call)
    ensures |Next(c, call).accepted| == |c.accepted| + if Succeeds(c, call) then 1 else 0
  {
    hide Inv, Start, HandleEvent, DeliverAll, Close;
    match call {
      case CallStart(id, raw, withHandler, ans) =>
        ErrorNotAccepted(c, id, raw, withHandler, ans);
        if withHandler && Start(c, id, raw, true, ans).err.None? {
          OneMore(c.accepted, c.made, Accepted(id, ans.now, c.rto, raw));
        }
      case CallCollect(gcTime, order, answers) =>
        DeliveriesKeepBooks(c.(agent := CollectSection(c.agent, gcTime)), order, TransactionTimeOut, gcTime, answers);
      case CallProcess(id, ans) =>
        EventKeepsBooks(c.(agent := ProcessSection(c.agent, id)), Event(id, None), ans.now, ans);
      case CallSetRTO(_) =>
      case CallClose(order, answers) =>
        CloseKeeps(c, order, answers);
    }
  }

  lemma NothingAccepted(states: seq<Client>, calls: seq<Call>, maxAttempts: nat)
    requires IsClientRun(states, calls, maxAttempts)
    ensures |states| == |calls| + 1 && states[0].accepted == map[]
  {
  }

  lemma {:induction false} StartsAccepted(states: seq<Client>, calls: seq<Call>, maxAttempts: nat, n: nat)
    requires IsClientRun(states, calls, maxAttempts) && n < |states|
    ensures Starts(states, calls, n) == |states[n].accepted|
    decreases n
  {
    NothingAccepted(states, calls, maxAttempts);
    if n > 0 {
      AcceptedAt(states, calls, maxAttempts, n - 1);
      hide IsClientRun, Succeeds;
      StartsAccepted(states, calls, maxAttempts, n - 1);
    }
  }

  lemma AcceptedAt(states: seq<Client>, calls: seq<Call>, maxAttempts: nat, n: nat)
    requires IsClientRun(states, calls, maxAttempts) && n < |calls|
    ensures |states[n + 1].accepted| == |states[n].accepted| + if Succeeds(states[n], calls[n]) then 1 else 0
  {
    StepAt(states, calls, maxAttempts, n);
    InvAt(states, calls, maxAttempts, n);
    hide IsClientRun, Succeeds, Next, Possible, Inv;
    AcceptedStep(states[n], calls[n]);
  }

  /** A tag that was used up and is not among the accepted never gets there, and its handler is not called. */
  lemma {:induction false} UnacceptedNeverCalled(states: seq<Client>, calls: seq<Call>, maxAttempts: nat, n: nat, m: nat, tag: nat)
    requires IsClientRun(states, calls, maxAttempts) && n <= m < |states|
    requires tag < states[n].made && tag !in states[n].accepted
    ensures tag < states[m].made && tag !in states[m].accepted
    ensures forall i :: 0 <= i < |states[m].callbacks| ==> states[m].callbacks[i].tag != tag
    decreases m
  {
    hide IsRun, NewClient, Live, Written, NotBefore, Next;
    if n < m {
      UnacceptedNeverCalled(states, calls, maxAttempts, n, m - 1, tag);
      StepAt(states, calls, maxAttempts, m - 1);
      NextBooks(states[m - 1], calls[m - 1]);
      var c, d := states[m - 1], states[m];
      assert tag in d.accepted - {c.made} <==> tag in d.accepted;
      assert tag in c.accepted - {c.made} <==> tag in c.accepted;
    }
    InvAt(states, calls, maxAttempts, m);
  }

  /** A `Start` with a handler that returns an error never has its handler called, however the run goes on. The
      tag of its transaction, if the client was open, is the next one. */
  lemma RefusedNeverCalled(states: seq<Client>, calls: seq<Call>, maxAttempts: nat, n: nat, m: nat)
    requires IsClientRun(states, calls, maxAttempts) && n < m < |states| && n < |calls|
    requires calls[n].CallStart? && calls[n].withHandler && !states[n].closed && !Succeeds(states[n], calls[n])
    ensures forall i :: 0 <= i < |states[m].callbacks| ==> states[m].callbacks[i].tag != states[n].made
  {
    var c, call := states[n], calls[n];
    StepAt(states, calls, maxAttempts, n);
    InvAt(states, calls, maxAttempts, n);
    RefusedTag(c, call);
    hide IsClientRun, Next, Possible, Inv;
    UnacceptedNeverCalled(states, calls, maxAttempts, n + 1, m, c.made);
  }

  lemma RefusedTag(c: Client, call: Call)
    requires Inv(c) && !c.closed && call.CallStart? && call.withHandler && !Succeeds(c, call)
    ensures c.made < Next(c, call).made && c.made !in Next(c, call).accepted
  {
    hide Start, Live, Written, NotBefore, Began, Wrote;
    ErrorNotAccepted(c, call.id, call.raw, true, call.ans);
    StartOutcome(c, call.id, call.raw, call.ans);
  }

  // Times.

  /** A transaction reported as timed out was collected strictly later than all its waits together after
      it started: 1 + 2 + ... + (maxAttempts + 1) times the RTO it started with. */
  lemma NoEarlyTimeOut(states: seq<Client>, calls: seq<Call>, maxAttempts: nat, n: nat, i: nat)
    requires IsClientRun(states, calls, maxAttempts) && n < |states| && i < |states[n].callbacks|
    requires states[n].callbacks[i].event.error == Some(TransactionTimeOut)
    ensures var cb := states[n].callbacks[i];
            && cb.tag in states[n].accepted
            && var a := states[n].accepted[cb.tag];
            && a.start + a.rto * ((maxAttempts + 1) * (maxAttempts + 2) / 2) < cb.at
  {
    hide IsRun, NewClient, Live, Written;
    InvAt(states, calls, maxAttempts, n);
  }

  // Writes.

  /** No transaction is written more than `maxAttempts` + 1 times. The first write of an accepted one is
      its message; each later one is the same octets again, up to the size of the pooled buffers. */
  lemma BoundedWrites(states: seq<Client>, calls: seq<Call>, maxAttempts: nat, n: nat, tag: nat)
    requires IsClientRun(states, calls, maxAttempts) && n < |states| && tag in states[n].sent
    ensures var c := states[n];
            && 1 <= |c.sent[tag]| <= maxAttempts + 1
            && (tag in c.accepted ==>
                  && c.sent[tag][0] == c.accepted[tag].raw
                  && (forall i :: 0 <= i < |c.sent[tag]| ==>
                        if |c.accepted[tag].raw| <= 2048 then c.sent[tag][i] == c.accepted[tag].raw
                        else i > 0 ==> c.sent[tag][i] == c.accepted[tag].raw[..2048]))
  {
    hide IsRun, NewClient, Live, Accounted, NotBefore;
    InvAt(states, calls, maxAttempts, n);
  }

  lemma ResentWhole(raw: Bytes)
    ensures Resent(raw) == raw <==> |raw| <= RESEND_CAPACITY
  {
    if |raw| > RESEND_CAPACITY {
      assert |Resent(raw)| < |raw|;
    }
  }

  /** In every run, what is written again is the message exactly when it fits in a pooled buffer. */
  lemma ResentWholeIff(states: seq<Client>, calls: seq<Call>, maxAttempts: nat, n: nat, tag: nat, i: nat)
    requires IsClientRun(states, calls, maxAttempts) && n < |states|
    requires tag in states[n].accepted && tag in states[n].sent && 1 <= i < |states[n].sent[tag]|
    ensures states[n].sent[tag][i] == states[n].accepted[tag].raw <==> |states[n].accepted[tag].raw| <= 2048
  {
    hide IsRun, NewClient, Live, Accounted, NotBefore, Resent;
    InvAt(states, calls, maxAttempts, n);
    ResentWhole(states[n].accepted[tag].raw);
  }

  /** A transaction in the map was written once more than it was tried again. */
  lemma AttemptsCounted(states: seq<Client>, calls: seq<Call>, maxAttempts: nat, n: nat, id: TxId)
    requires IsClientRun(states, calls, maxAttempts) && n < |states| && id in states[n].t
    ensures var c := states[n];
            c.t[id].attempt <= maxAttempts && c.t[id].tag in c.sent && |c.sent[c.t[id].tag]| == c.t[id].attempt + 1
  {
    hide IsRun, NewClient, Accounted, NotBefore;
    InvAt(states, calls, maxAttempts, n);
  }

  /** Each expiry ends the transaction, with one call of its handler, or uses up one of the attempts it
      had left. */
  lemma ExpiryMakesProgress(c: Client, waiting: set<TxId>, id: TxId, at: Time, ans: Answer)
    requires Sane(c) && Linked(c, waiting) && id in waiting
    ensures var x, d := c.t[id], HandleEvent(c, Event(id, Some(TransactionTimeOut)), at, ans);
            || (id !in d.t && |d.callbacks| == |c.callbacks| + 1 && d.callbacks[|c.callbacks|].tag == x.tag)
            || (id in d.t && d.callbacks == c.callbacks && 0 <= c.maxAttempts - d.t[id].attempt < c.maxAttempts - x.attempt)
  {
    assert c.t[id].id == id && c.t[id].calls == 0;
    hide Live, Accounted, Written, NotBefore, HandleEvent;
    EventOutcome(c, waiting, Event(id, Some(TransactionTimeOut)), at, ans);
  }

  // Closing.

  /** Nothing an owner of the client could notice is different. */
  ghost predicate Unnoticed(c: Client, d: Client) {
    && d.closed == c.closed && d.t == c.t && d.callbacks == c.callbacks && d.sent == c.sent && d.wire == c.wire && d.accepted == c.accepted
    && d.unmatched == c.unmatched
  }

  lemma ClosedStep(c: Client, call: Call)
    requires Inv(c) && c.closed && Possible(c, call)
    ensures Unnoticed(c, Next(c, call))
  {
    hide Sane;
  }

  /** From the moment it is closed a client calls no handler and writes nothing, for the rest of the run;
      what it still had stays unanswered. */
  lemma {:induction false} ClosedIsQuiet(states: seq<Client>, calls: seq<Call>, maxAttempts: nat, n: nat, m: nat)
    requires IsClientRun(states, calls, maxAttempts) && n <= m < |states| && states[n].closed
    ensures Unnoticed(states[n], states[m])
    decreases m
  {
    hide IsRun, NewClient, Inv, Next, Possible;
    if n < m {
      ClosedIsQuiet(states, calls, maxAttempts, n, m - 1);
      StepAt(states, calls, maxAttempts, m - 1);
      InvAt(states, calls, maxAttempts, m - 1);
      ClosedStep(states[m - 1], calls[m - 1]);
    }
  }

  /** An accepted transaction is answered after closing exactly if it was not in the map when the client was
      closed: those still there never are. */
  lemma AnsweredIfGone(states: seq<Client>, calls: seq<Call>, maxAttempts: nat, n: nat, m: nat, tag: nat)
    requires IsClientRun(states, calls, maxAttempts) && n <= m < |states| && states[n].closed && tag in states[m].accepted
    ensures tag in TagsOf(states[m].callbacks) <==> tag !in LiveTags(states[n].t)
  {
    hide IsRun, NewClient, IsClientRun, LiveTags, TagsOf;
    ClosedIsQuiet(states, calls, maxAttempts, n, m);
    ExactlyOnce(states, calls, maxAttempts, m);
  }
}
