/** Concrete runs in which a message is cut when it is sent again, and in which a transaction is never answered. */
module ClientExamples {
  import opened Base
  import opened AgentSpec
  import opened ClientSpec
  import opened ClientProofs
  import opened ClientTheorems
  import opened ClientOverlap

  function Fresh(): Client {
    NewClient(1, 7, false)
  }

  /** A transaction started at time 0 with an RTO of 1. */
  function FirstCall(raw: Bytes): Call {
    CallStart(SOME_ID, raw, true, Answer(0, true))
  }

  function Started(raw: Bytes): Client {
    Began(Fresh(), SOME_ID, raw, 0)
  }

  lemma StartedNext(raw: Bytes)
    ensures Next(Fresh(), FirstCall(raw)) == Started(raw)
    ensures Started(raw).agent == AgentState(false, map[SOME_ID := 1], 1)
    ensures Started(raw).sent == map[0 := [raw]]
  {
    hide Start;
    StartOutcome(Fresh(), SOME_ID, raw, Answer(0, true));
    assert [] + [raw] == [raw];
  }

  /** A collection at time 2. */
  function Tick(): Call {
    CallCollect(2, [SOME_ID], [Answer(2, true)])
  }

  /** What the collection takes from the agent. */
  function Waiting(raw: Bytes): Client {
    Started(raw).(agent := AgentState(false, map[], 1))
  }

  lemma TickPossible(raw: Bytes)
    ensures Possible(Started(raw), Tick())
    ensures CollectSection(Started(raw).agent, 2) == AgentState(false, map[], 1)
  {
    StartedNext(raw);
    assert Expired(AgentState(false, map[SOME_ID := 1], 1), 2) == {SOME_ID};
  }

  lemma TickNext(raw: Bytes)
    ensures Next(Started(raw), Tick()) == Retried(Waiting(raw), SOME_ID, 2)
  {
    StartedNext(raw);
    TickPossible(raw);
    hide HandleEvent, Resent;
    EventOutcome(Waiting(raw), {SOME_ID}, Event(SOME_ID, Some(TransactionTimeOut)), 2, Answer(2, true));
  }

  /** A message of 2049 octets is sent again without its last one. */
  lemma CutExample() returns (states: seq<Client>, calls: seq<Call>)
    ensures IsClientRun(states, calls, 7) && |calls| == 2
    ensures var c := states[2];
            && 0 in c.accepted && |c.accepted[0].raw| == RESEND_CAPACITY + 1
            && 0 in c.sent && c.sent[0] == [c.accepted[0].raw, c.accepted[0].raw[..RESEND_CAPACITY]]
  {
    var raw := Zeros(RESEND_CAPACITY + 1);
    StartedNext(raw);
    TickPossible(raw);
    TickNext(raw);
    hide Next, Possible;
    states := [Fresh(), Started(raw), Retried(Waiting(raw), SOME_ID, 2)];
    calls := [FirstCall(raw), Tick()];
    TwoCalls(states, calls);
  }

  /** A transaction that waits when the client is closed stays in its map, unanswered. */
  lemma UnansweredExample(raw: Bytes) returns (states: seq<Client>, calls: seq<Call>)
    ensures IsClientRun(states, calls, 7) && |calls| == 2
    ensures var c := states[2];
            c.closed && 0 in c.accepted && 0 in LiveTags(c.t) && c.callbacks == []
  {
    StartedNext(raw);
    ClosedNext(raw);
    assert Possible(Fresh(), FirstCall(raw));
    hide Next, Possible;
    states := [Fresh(), Started(raw), Started(raw).(closed := true, agent := CloseSection(Started(raw).agent))];
    calls := [FirstCall(raw), CallClose([SOME_ID], [Answer(0, true)])];
    TwoCalls(states, calls);
    assert states[2].t[SOME_ID].tag == 0;
  }

  lemma ClosedNext(raw: Bytes)
    ensures var call := CallClose([SOME_ID], [Answer(0, true)]);
            && Possible(Started(raw), call)
            && Next(Started(raw), call) == Started(raw).(closed := true, agent := CloseSection(Started(raw).agent))
  {
    StartedNext(raw);
    hide Began;
    ClosedIgnores(Started(raw).(closed := true), [SOME_ID], AgentClosed, 0, [Answer(0, true)]);
  }

  lemma TwoCalls(states: seq<Client>, calls: seq<Call>)
    requires |states| == 3 && |calls| == 2 && states[0] == Fresh()
    requires Possible(states[0], calls[0]) && states[1] == Next(states[0], calls[0])
    requires Possible(states[1], calls[1]) && states[2] == Next(states[1], calls[1])
    ensures IsClientRun(states, calls, 7)
  {
    hide Possible, Next;
  }
}
