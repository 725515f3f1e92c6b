/** The agent as an object: each method is one section under its lock. */
module AgentObject {
  import opened Base
  import opened Wire
  import opened AgentSpec

  class Agent {
    var transactions: map<TxId, Time>
    var closed: bool
    var handler: nat

    constructor (handler: nat)
      ensures State() == AgentState(false, map[], handler)
    {
      transactions, closed, this.handler := map[], false, handler;
    }

    ghost function State(): AgentState
      reads this
    {
      AgentState(closed, transactions, handler)
    }

    method Start(id: TxId, deadline: Time) returns (err: Option<Error>)
      modifies this
      ensures Started(State(), err) == StartSection(old(State()), id, deadline)
    {
      if closed {
        return Some(AgentClosed);
      }
      if id in transactions {
        return Some(TransactionExists);
      }
      transactions := transactions[id := deadline];
      err := None;
    }

    /** If there is no error the caller owes the handler an event. */
    method StopLocked(id: TxId) returns (err: Option<Error>)
      modifies this
      ensures Started(State(), err) == StopSection(old(State()), id)
    {
      if closed {
        return Some(AgentClosed);
      }
      var registered := id in transactions;
      transactions := transactions - {id};
      err := if registered then None else Some(TransactionNotExists);
    }

    /** Gathers the ids whose deadline is before `gcTime`, then takes them out. */
    method CollectLocked(gcTime: Time) returns (toRemove: seq<TxId>, err: Option<Error>)
      modifies this
      ensures State() == CollectSection(old(State()), gcTime)
      ensures err == if old(closed) then Some(AgentClosed) else None
      ensures if old(closed) then toRemove == [] else Enumerates(toRemove, Expired(old(State()), gcTime))
    {
      toRemove := [];
      if closed {
        return toRemove, Some(AgentClosed);
      }
      toRemove := Gather(gcTime);
      ghost var was := transactions;
      for i := 0 to |toRemove|
        invariant transactions == was - (set k | 0 <= k < i :: toRemove[k]) && !closed && handler == old(handler)
      {
        transactions := transactions - {toRemove[i]};
      }
      assert (set k | 0 <= k < |toRemove| :: toRemove[k]) == Expired(old(State()), gcTime);
      err := None;
    }

    method Gather(gcTime: Time) returns (found: seq<TxId>)
      ensures Enumerates(found, Expired(State(), gcTime))
    {
      found := [];
      var rest := transactions.Keys;
      while rest != {}
        invariant rest <= transactions.Keys
        invariant Enumerates(found, set id | id in transactions && id !in rest && transactions[id] < gcTime)
        decreases rest
      {
        var id :| id in rest;
        rest := rest - {id};
        if transactions[id] < gcTime {
          found := found + [id];
        }
      }
      assert Expired(State(), gcTime) == set id | id in transactions && id !in rest && transactions[id] < gcTime;
    }

    method ProcessLocked(id: TxId) returns (err: Option<Error>)
      modifies this
      ensures State() == ProcessSection(old(State()), id)
      ensures err == if old(closed) then Some(AgentClosed) else None
    {
      if closed {
        return Some(AgentClosed);
      }
      transactions := transactions - {id};
      err := None;
    }

    method SetHandler(h: nat) returns (err: Option<Error>)
      modifies this
      ensures State() == if old(closed) then old(State()) else old(State()).(handler := h)
      ensures err == if old(closed) then Some(AgentClosed) else None
    {
      if closed {
        return Some(AgentClosed);
      }
      handler := h;
      err := None;
    }

    /** The ids to tell the handler about, all of them, while the lock is held. */
    method Registered() returns (ids: seq<TxId>)
      ensures Enumerates(ids, transactions.Keys)
    {
      ids := [];
      var rest := transactions.Keys;
      while rest != {}
        invariant rest <= transactions.Keys && Enumerates(ids, transactions.Keys - rest)
        decreases rest
      {
        var id :| id in rest;
        rest := rest - {id};
        ids := ids + [id];
      }
      assert transactions.Keys - rest == transactions.Keys;
    }

    method CloseLocked()
      requires !closed
      modifies this
      ensures State() == CloseSection(old(State()))
    {
      transactions, closed, handler := map[], true, 0;
    }
  }
}
