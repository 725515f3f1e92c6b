/** The transaction list of an agent: what each section under its lock does. */
module AgentSpec {
  import opened Base
  import opened Wire

  type Time = int

  datatype Error =
    | TransactionStopped
    | TransactionTimeOut
    | TransactionExists
    | TransactionNotExists
    | AgentClosed
    | ClientClosed
    | WriteFailed
    | StopFailed(err: Error, cause: Error)

  /** An event without an error carries a message. */
  datatype Event = Event(id: TxId, error: Option<Error>)

  /** `handler` names the function events go to. */
  datatype AgentState = AgentState(closed: bool, transactions: map<TxId, Time>, handler: nat)

  // Sections under the lock.

  datatype Started = Started(a: AgentState, err: Option<Error>)

  function StartSection(a: AgentState, id: TxId, deadline: Time): Started {
    if a.closed then Started(a, Some(AgentClosed))
    else if id in a.transactions then Started(a, Some(TransactionExists))
    else Started(a.(transactions := a.transactions[id := deadline]), None)
  }

  function StopSection(a: AgentState, id: TxId): Started {
    if a.closed then Started(a, Some(AgentClosed))
    else Started(a.(transactions := a.transactions - {id}), if id in a.transactions then None else Some(TransactionNotExists))
  }

  function Expired(a: AgentState, gcTime: Time): set<TxId> {
    set id | id in a.transactions && a.transactions[id] < gcTime
  }

  function CollectSection(a: AgentState, gcTime: Time): AgentState {
    if a.closed then a else a.(transactions := a.transactions - Expired(a, gcTime))
  }

  function ProcessSection(a: AgentState, id: TxId): AgentState {
    if a.closed then a else a.(transactions := a.transactions - {id})
  }

  function CloseSection(a: AgentState): AgentState {
    AgentState(true, map[], 0)
  }

  /** `order` lists the elements of `ids`, each once. */
  ghost predicate Enumerates<T(!new)>(order: seq<T>, ids: set<T>) {
    && (forall i :: 0 <= i < |order| ==> order[i] in ids)
    && (forall x :: x in ids ==> x in order)
    && (forall i, j :: 0 <= i < j < |order| ==> order[i] != order[j])
  }
}
