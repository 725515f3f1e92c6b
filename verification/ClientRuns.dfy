/** Whatever is done with a client object, its states are those of a run of the machine, so what holds of
    every run holds of the object. */
module ClientRuns {
  import opened Base
  import opened Wire
  import opened Slices
  import opened AttributeLists
  import opened Messages
  import opened ClientTheorems
  import opened ClientObject
  import Proofs = ClientProofs
  import Spec = ClientSpec

  /** Between calls the owner of a message may write other octets over it. */
  datatype Op =
    | DoStart(msg: Message, withHandler: bool)
    | DoTick
    | DoProcess(id: TxId)
    | DoSetRTO(rto: int)
    | DoClose
    | DoOverwrite(msg: Message, octets: Bytes)
  {
    predicate HasMessage() {
      DoStart? || DoOverwrite?
    }
  }

  /** The call is the one that the operation asks for. */
  predicate Matches(op: Op, call: Spec.Call) {
    match op
    case DoStart(msg, withHandler) => call.CallStart? && call.withHandler == withHandler
    case DoTick => call.CallCollect?
    case DoProcess(id) => call.CallProcess? && call.id == id
    case DoSetRTO(rto) => call == Spec.CallSetRTO(rto)
    case DoClose => call.CallClose?
    case DoOverwrite(_, _) => false
  }

  /** The message of an operation shares no array with the client. */
  ghost predicate Apart(c: Client, op: Op)
    reads c, if op.HasMessage() then {op.msg} else {}
  {
    op.HasMessage() ==>
      op.msg.raw.Valid() && op.msg.raw.arr != c.buf && forall id :: id in c.t ==> c.t[id].raw.arr != op.msg.raw.arr
  }

  method Perform(c: Client, op: Op) returns (ghost call: Spec.Call)
    requires c.Valid() && Apart(c, op) && !op.DoOverwrite?
    modifies c, c.a, c.clock, c.conn, c.buf, set id | id in c.t :: c.t[id]
    ensures c.Valid()
    ensures forall id :: id in c.t ==> (id in old(c.t) && c.t[id] == old(c.t)[id]) || (fresh(c.t[id]) && fresh(c.t[id].raw.arr))
    ensures Matches(op, call) && (op.DoStart? ==> call.id == op.msg.transactionID && call.raw == old(op.msg.raw.View()))
    ensures Spec.Possible(old(c.State()), call) && c.State() == Spec.Next(old(c.State()), call)
  {
    hide Spec.Start, Spec.Collect, Spec.Process, Spec.Close;
    match op {
      case DoStart(msg, withHandler) =>
        var _, ans := c.Start(msg, withHandler);
        call := Spec.CallStart(msg.transactionID, old(msg.raw.View()), withHandler, ans);
      case DoTick =>
        var gcTime, _, order, answers := c.Collect();
        call := Spec.CallCollect(gcTime, order, answers);
      case DoProcess(id) =>
        var _, ans := c.Process(id);
        call := Spec.CallProcess(id, ans);
      case DoSetRTO(rto) =>
        c.SetRTO(rto);
        call := Spec.CallSetRTO(rto);
      case DoClose =>
        var _, order, answers := c.Close();
        call := Spec.CallClose(order, answers);
    }
  }

  /** Writing over a message, even one that was started, changes nothing in the client. */
  method Overwrite(c: Client, msg: Message, octets: Bytes)
    requires c.Valid() && Apart(c, DoOverwrite(msg, octets))
    modifies msg.raw.arr
    ensures c.Valid() && c.State() == old(c.State())
    ensures var n := Min(msg.raw.len, |octets|); msg.raw.View() == octets[..n] + old(msg.raw.View())[n..]
  {
    hide ClientTransaction.Intact;
    var n := Min(msg.raw.len, |octets|);
    ghost var mem := msg.raw.arr[..];
    Poke(msg.raw, 0, octets[..n]);
    SpliceView(mem, msg.raw.off, msg.raw.len, 0, octets[..n]);
  }

  lemma RunSnoc(states: seq<Spec.Client>, calls: seq<Spec.Call>, d: Spec.Client, call: Spec.Call)
    requires Spec.IsRun(states, calls)
    requires Spec.Possible(states[|calls|], call) && d == Spec.Next(states[|calls|], call)
    ensures Spec.IsRun(states + [d], calls + [call])
  {
    hide Spec.Possible, Spec.Next;
  }

  lemma NoCalls(c: Spec.Client)
    ensures Spec.IsRun([c], [])
  {
  }

  /** The calls among the operations. */
  function Calls(ops: seq<Op>): nat {
    if ops == [] then 0 else Calls(ops[..|ops| - 1]) + if ops[|ops| - 1].DoOverwrite? then 0 else 1
  }

  lemma NextCalls(ops: seq<Op>, i: nat)
    requires i < |ops|
    ensures Calls(ops[..i + 1]) == Calls(ops[..i]) + if ops[i].DoOverwrite? then 0 else 1
  {
    assert ops[..i + 1][..i] == ops[..i];
  }

  /** The i-th operation is the next call after those of the operations before it, with the id of its message
      as that is now. */
  ghost predicate Done(ops: seq<Op>, calls: seq<Spec.Call>, i: nat)
    requires i < |ops|
    reads if ops[i].HasMessage() then {ops[i].msg} else {}
  {
    var n := Calls(ops[..i]);
    n < |calls| && Matches(ops[i], calls[n]) && (ops[i].DoStart? ==> calls[n].id == ops[i].msg.transactionID)
  }

  /** The first `n` operations are done. */
  ghost predicate AllDone(ops: seq<Op>, calls: seq<Spec.Call>, n: nat)
    requires n <= |ops|
    reads set i | 0 <= i < n && ops[i].HasMessage() :: ops[i].msg
  {
    forall i :: 0 <= i < n && !ops[i].DoOverwrite? ==> Done(ops, calls, i)
  }

  lemma DoneSnoc(ops: seq<Op>, calls: seq<Spec.Call>, i: nat, call: Spec.Call)
    requires i < |ops| && |calls| == Calls(ops[..i]) && AllDone(ops, calls, i)
    requires Matches(ops[i], call) && (ops[i].DoStart? ==> call.id == ops[i].msg.transactionID)
    ensures AllDone(ops, calls + [call], i + 1)
  {
    hide Calls, Matches;
  }

  /** Makes a client and does with it, and with the messages given to it, whatever is asked. */
  method Drive(rto: int, maxAttempts: nat, hasHandler: bool, ops: seq<Op>)
    returns (c: Client, ghost states: seq<Spec.Client>, ghost calls: seq<Spec.Call>)
    requires forall i :: 0 <= i < |ops| && ops[i].HasMessage() ==> ops[i].msg.raw.Valid()
    modifies set i | 0 <= i < |ops| && ops[i].HasMessage() :: ops[i].msg.raw.arr
    ensures IsClientRun(states, calls, maxAttempts) && |calls| == Calls(ops)
    ensures AllDone(ops, calls, |ops|)
    ensures c.State() == states[|calls|] && Proofs.Inv(c.State())
  {
    hide Spec.Possible, Spec.Next, Spec.IsRun, Spec.NewClient, Proofs.Inv, Calls, Done, Matches, ClientTransaction.Intact;
    c := new Client(rto, maxAttempts, hasHandler, 0);
    states, calls := [c.State()], [];
    NoCalls(c.State());
    assert Calls(ops[..0]) == 0 by { CallsNone(ops[..0]); }
    for i := 0 to |ops|
      invariant c.Valid() && fresh(c) && fresh(c.a) && fresh(c.clock) && fresh(c.conn) && fresh(c.buf)
      invariant forall id :: id in c.t ==> fresh(c.t[id]) && fresh(c.t[id].raw.arr)
      invariant |calls| == Calls(ops[..i]) && |states| == |calls| + 1 && Spec.IsRun(states, calls)
      invariant AllDone(ops, calls, i)
      invariant states[0] == Spec.NewClient(rto, maxAttempts, hasHandler) && states[|calls|] == c.State()
    {
      NextCalls(ops, i);
      if ops[i].DoOverwrite? {
        Overwrite(c, ops[i].msg, ops[i].octets);
      } else {
        ghost var call := Perform(c, ops[i]);
        RunSnoc(states, calls, c.State(), call);
        DoneSnoc(ops, calls, i, call);
        states, calls := states + [c.State()], calls + [call];
      }
    }
    assert ops[..|ops|] == ops;
    InvAt(states, calls, maxAttempts, |calls|);
  }

  lemma CallsNone(ops: seq<Op>)
    requires ops == []
    ensures Calls(ops) == 0
  {
  }
}
