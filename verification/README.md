# A model of a STUN library

This project models the core of a Go implementation of STUN (RFC 5389) and proves what that core is for.
It covers the machine of client and agent transactions, the codec over a reused growing buffer, the two
attributes that sign a message, the pooled HMAC object behind them, the address attributes, building and
visiting a message. `dafny verify dfyconfig.toml` checks everything.

## How it is laid out

Each part has a value-level definition, an object that works the way the source does, and lemmas or
contracts that tie the two together.

| part | definitions | objects |
|---|---|---|
| octets, message types, the wire | `Base`, `MessageTypes`, `Wire` | |
| slices and buffers | | `Slices`, `Buffers`, `AttributeLists` |
| messages | `Wire` | `Messages`, `Reencode`, `Builds`, `ForEachAttribute` |
| HMAC, integrity, fingerprint | `IntegritySpec` | `Hmacs`, `Integrity`, `Pipeline` |
| addresses | `Addresses` | `Addresses` |
| agent | `AgentSpec`, `AgentRuns` | `AgentObject` |
| client | `ClientSpec`, `ClientProofs`, `ClientTheorems`, `ClientExpiries`, `ClientOutcomes`, `ClientOverlap`, `ClientExamples` | `ClientObject`, `ClientRuns` |

*Slices.* A Go slice is an array, an offset, a length and a capacity. Octets in the spare capacity are
arbitrary, `append` writes in place when it can and otherwise moves to a new array of any larger
capacity, and attribute values are windows that may share the array of the message, or point into an
array that a reallocation left behind. The object predicates of a message say how it relates to a value
`m` of type `Msg`: `Carries(m)` (the attributes show `m`, and those in the buffer lie where a rewrite can take
them from), `Backed(m)` (the buffer also has the header and the body, with any octets in padding and behind),
`Laid(m)` (the buffer is the encoding of `m` up to the length field), `Holds(m)` (the buffer is exactly
`Print(m)`), `Readable(m)` (built or decoded, possibly with octets after the body). Operations are stated for
`Backed` messages by what they do to the octets, and for `Holds` by the encoding they reach.

*Client.* `ClientSpec` is a deterministic machine whose inputs are the calls and what the environment
answers (times and the success of writes). `ClientProofs.Inv` holds after every call of every run, and
`ClientTheorems` reads the main results off it. `ClientObject.Client` has the fields and the control flow
of the source; each method is proved to take the state exactly where the machine does, and
`ClientRuns.Drive` concludes that any use of the object is a run of the machine, even if the messages given to
it are written over between calls.

*Agent.* `AgentRuns` interleaves freely: each section under the agent's lock is one step, and events made
in a section wait until a separate delivery step.

## What the proofs found

- `Encode` writes the header before it resets the length, so a message left without attributes keeps the
  old length in its header. The result decodes exactly when an attribute is left or the old length was
  zero (`Message.Encode`, `EncodedIff`, `EmptyEncodingRefused`).
- The FINGERPRINT check covers all but the last eight octets of the buffer. Those are the octets in front
  of the attribute exactly when nothing follows it in the message or in the buffer (`FingerprintStart`).
- A message is sent again whole exactly when it has at most 2048 octets; longer ones are cut
  (`ResentWholeIff`, `BoundedWrites`, and a concrete run in `CutExample`).
- A MESSAGE-INTEGRITY value whose padded size is not 20 octets makes the check start at another place than
  the attribute's header, still inside the buffer (`PrefixArithmetic`).
- If handling overlaps, so that a message is processed while a time-out for the same transaction waits to be
  delivered, and the time-out is delivered first, the agent is left with an id the client has forgotten
  exactly when attempts were left and the write succeeded (`OverlapIff`, with a concrete run in
  `OverlapExample`). Delivered the other way round, the ids agree (`MessageFirstAgrees`).
- When the agent refuses a `Start` that the client did not, the source returns without taking the transaction
  out of the client's map. That happens exactly when the agent is closed or has the id and the client does not
  (`RefusedStartIff`), as after the overlap above, and then a message with that id calls the handler of a
  `Start` that returned an error (`RefusedStartAnswered`, `RefusedStartExample`). No run to completion gets
  there (`ErrorNotAccepted`, `RefusedNeverCalled`).
- A client that is closed ignores what the agent reports when it closes. The agent's own handler is called for
  each transaction, as the comment on `Agent.Start` promises, but the handlers of the transactions that were
  still in the map are never called: an accepted one is answered if and only if it was not there any more
  (`AnsweredIfGone`, and a concrete run in `UnansweredExample`).
- Signing or stamping a message with octets behind its body covers those octets, which a check does not: the two
  agree exactly when nothing follows the body (`SignedVerdict`, `StampedVerdict`).
- Section 7.2.1 of RFC 5389 doubles the interval between retransmissions. The code waits one RTO, then two,
  then three; the model follows the code (`NoEarlyTimeOut`).

## Model

| member | source | states |
|---|---|---|
| ClientTheorems.IdsAgree | client.go:626-745 | in every state of every run, an open client and its agent have exactly the same ids, failed first writes and failed resends included; a closed one has an empty agent |
| ClientTheorems.DuringCollection | agent.go:146-185 | in every collection of every run, after any number of its deliveries, the client's ids are those of the agent and those still to be delivered |
| ClientTheorems.ExactlyOnce | client.go:633-699 | in every state of every run, the calls of `Start` with a handler that returned no error are as many as the transactions in the map and the calls of handlers together; the accepted transactions are the disjoint union of those in the map and those whose handler was called, no handler is called twice, and each gets the id of its own transaction |
| ClientTheorems.RefusedNeverCalled | client.go:714-744 | a `Start` with a handler that returns an error never has its handler called, however the run goes on |
| ClientTheorems.AcceptedStep | client.go:704-745 | a call accepts one transaction if it is a `Start` with a handler that returns no error, and none otherwise |
| ClientTheorems.ErrorNotAccepted | client.go:704-745 | from any state of a run, a failing `Start` leaves both maps, the accepted transactions and the calls as they were; a successful one adds exactly its own new transaction to both maps and to those accepted |
| ClientTheorems.NoEarlyTimeOut | client.go:341-343 | for every run and any use of `SetRTO`, a transaction reported as timed out was collected strictly later than start + rto·(M+1)(M+2)/2 with M the maximum of attempts |
| ClientTheorems.BoundedWrites | client.go:645-699 | no transaction is written more than M+1 times; every write of an accepted one is the message given to `Start`, or its first 2048 octets if it is longer and this is not the first write |
| ClientTheorems.ResentWholeIff | client.go:654-656 | in every run, a later write of an accepted transaction is the message if and only if that has at most 2048 octets |
| ClientTheorems.AttemptsCounted | client.go:645-699 | a transaction in the map has at most M attempts and was written attempts + 1 times |
| ClientTheorems.ExpiryMakesProgress | client.go:645-699 | each expiry calls the handler once and ends the transaction, or strictly lowers the attempts left (`BoundedExpiries` counts them over runs) |
| ClientTheorems.ClosedIsQuiet | client.go:485-515 | from the state in which it is closed on, to the end of every run, a client calls no handler, writes nothing and accepts nothing |
| ClientTheorems.AnsweredIfGone | client.go:485-515 | after closing, an accepted transaction has been answered, then or ever, if and only if it was not in the map when the client was closed |
| ClientExpiries.BoundedExpiries | client.go:645-699 | in every run no transaction expires more than M+1 times; one in the map has expired exactly as often as it was tried again |
| ClientExpiries.StepAttempts | client.go:626-745 | what is in the map after a call was there before, unchanged but for one more attempt if it expired in that call, or is new |
| ClientOutcomes.DeadlineExact | client.go:341-343 | in every run the deadline of a transaction is the time of its last write plus as many RTOs as it was written, and a collection takes it if and only if it comes after that |
| ClientOutcomes.ResendDeadline | client.go:653-672 | a transaction sent again after k attempts waits k+2 RTOs from the time it is sent |
| ClientOutcomes.CollectOutcome | client.go:645-699 | in a collection every transaction that expired is sent again with the next deadline, or its handler is called with a time-out or the failed write; every other one is left alone |
| ClientOutcomes.ProcessOutcome | client.go:633-652 | a message ends the transaction with its id in both maps and its handler is called with it; without one, the client's own handler gets it and nothing else happens |
| ClientOutcomes.UnmatchedExact | client.go:637-643 | over every call, the client's own handler gets exactly the messages without a transaction |
| ClientOutcomes.UnknownOutcome | client.go:637-643 | from any open state, an event for an unknown id goes to the client's own handler unless it is that of a stop |
| ClientOutcomes.WrittenExact | client.go:681 | what every call gives to the connection: the message of a start, and in a collection, in turn, what is sent again of each transaction with attempts left |
| ClientOutcomes.IndicationOutcome | client.go:704-745 | a message without a handler is written and changes nothing else |
| ClientOutcomes.SetRTOApplies | client.go:377-379 | a new RTO is that of every transaction started after it, with a deadline one of it later, and of none before |
| ClientOutcomes.FailedStart | client.go:732-744 | from any state, the error of a failed first write, with that of the stop if it fails too, and that the transaction is in neither map |
| ClientOutcomes.FailedResend | client.go:681-699 | from any state, a later write that fails ends the transaction with one call, with the same errors |
| ClientOutcomes.RefusedResend | client.go:663-679 | from any state, a transaction that the agent refuses to register again ends with a call that gives the reason, and nothing is written |
| ClientOutcomes.HandlerOnce | client.go:315-319 | only the first call for a transaction reaches its handler |
| ClientOutcomes.ClosedAnswers | client.go:485-493 | the errors of a closed client, and of closing one |
| ClientOutcomes.NewClientState | client.go:206-245 | a new client has what it was given, and nothing else |
| ClientOverlap.OverlapIff | client.go:626-700 | a message processed between a collection and the delivery of its time-out leaves the agent with an id the client does not have if and only if attempts were left and the write succeeded; otherwise the ids agree |
| ClientOverlap.MessageFirstAgrees | client.go:626-700 | if the message is delivered before the time-out the ids agree, whatever happens |
| ClientOverlap.OverlapExample | client.go:626-700 | a concrete run of calls after which the agent has an id and the client none |
| ClientOverlap.RefusedStartIff | client.go:725-731 | a `Start` that returns an error leaves the client's map as it was, except if and only if the id was not there and the agent was closed or had it |
| ClientOverlap.RefusedStartAnswered | client.go:725-731 | then the next message with that id calls the handler of the refused `Start` |
| ClientOverlap.RefusedStartExample | client.go:725-731 | both happen in the concrete run |
| ClientExamples.CutExample | client.go:654-656 | a concrete run in which a message of 2049 octets is sent again without its last one |
| ClientExamples.UnansweredExample | client.go:485-515 | a concrete run after which the client is closed with an accepted transaction still in its map |
| ClientProofs.RunInv | client.go:626-745 | the invariant of client and agent holds in every state of every run from a new client |
| ClientProofs.NextKeeps | client.go:626-745 | every call, with all the events it causes, keeps the invariant |
| ClientProofs.DeliveriesKeep | agent.go:146-185 | a collection with all its deliveries ends with the same ids in both maps and keeps the accounts and the times |
| ClientProofs.DeliveredSoFar | agent.go:174-182 | after any number of deliveries the ids still waiting are those of the others, and the accounts and the times are kept |
| ClientProofs.TimeOutKeeps | client.go:626-700 | during a collection the client's ids are the agent's and those still to be delivered, and each delivery keeps that, the accounts and the times |
| ClientProofs.EventOutcome | client.go:626-700 | an event for a waiting transaction either ends it with one call, puts it in both maps with the next deadline, or fails to and leaves the agent as it was |
| ClientProofs.ResendOutcome | client.go:653-699 | sending again puts the transaction in both maps, or in neither and calls its handler with the write error |
| ClientProofs.StopIgnored | client.go:682-693 | stopping a transaction the client has deleted takes it from the agent and does nothing else |
| ClientProofs.StartOutcome | client.go:704-745 | for any open client and whatever its agent has: which error `Start` returns, and that it registers in both maps, in neither, or in the client's alone when only the agent refuses |
| ClientProofs.DueNext | client.go:341-343 | a deadline set after the k-th wait ended is no earlier than the sum of the first k+1 waits |
| ClientProofs.CloseKeeps | client.go:485-515 | closing keeps the invariant and changes nothing but closing the client and closing and emptying the agent |
| ClientObject.ClientTransaction.Handle | client.go:315-319 | counts the call, and only the first one goes through to the handler |
| ClientObject.FillBuffer | client.go:654-656 | the buffer shows as much of the message as fits, whatever it held |
| ClientObject.CopyRaw | client.go:722 | the octets of the message in an array of its own |
| ClientObject.Client.constructor | client.go:206-245 | a new client is the first state of a run |
| ClientObject.Client.StartTransaction | client.go:348-361 | enters the transaction unless closed or there already; the new state is that of the machine |
| ClientObject.Client.Delete | client.go:608-614 | takes one id out of the map |
| ClientObject.Client.HandleAgentCallback | client.go:626-652 | takes the client, agent and transaction objects exactly where the machine does on any event, from any state |
| ClientObject.Client.HandleFound | client.go:645-653 | the event of a transaction in the map ends it or sends it again, as the machine does |
| ClientObject.Client.ResendTransaction | client.go:653-680 | re-registers and writes again, or undoes and calls the handler, as the machine does |
| ClientObject.Client.WriteAgain | client.go:680-700 | gives the octets to the connection, and a failed write takes the transaction out of both maps through the nested stop event |
| ClientObject.Client.Start | client.go:704-745 | as the machine does, from a copy of the octets of the message at the time of the call |
| ClientObject.Client.WriteStarted | client.go:731-744 | gives the message to the connection, and a failed first write takes the transaction out of both maps again |
| ClientObject.Client.SetRTO | client.go:377-379 | changes the RTO of later transactions only |
| ClientObject.Client.Process | agent.go:188-205 | ends the transaction of an incoming message, or reports it as unmatched; fails exactly if the agent is closed |
| ClientObject.Client.Collect | agent.go:146-185 | handles each expired transaction once, in some order, at times not before the collection; the call is one the machine allows; fails exactly if the agent is closed |
| ClientObject.Client.Close | client.go:485-515 | closes the client first, so the events of the closing agent change nothing |
| ClientObject.DeliverSnoc | agent.go:174-182 | delivering a list of events one by one is what the machine does in one call |
| ClientRuns.Perform | client.go:626-745 | every call of the object is a possible step of the machine, and is the one asked for, with the id and the octets the message has then |
| ClientRuns.Overwrite | client.go:722 | writing over a message that was started changes nothing in the client |
| ClientRuns.Drive | client.go:206-745 | any sequence of calls on a new client object, with the messages given to it written over in between, gives a run of the machine made of just those calls in that order, ending in its state, so all of the above holds of the object |
| AgentRuns.RunConserves | agent.go:80-243 | in every interleaving, for each id, successful starts equal registrations ended by delivered events plus those ended by pending ones plus one if still registered |
| AgentRuns.StepConserves | agent.go:80-243 | every section and every delivery keeps that balance |
| AgentRuns.ClosedForGood | agent.go:223-243 | once closed the agent stays closed and empty, starts nothing and makes no event; pending ones only get delivered |
| AgentRuns.RunShut | agent.go:223-243 | in every run a closed agent has no transactions |
| AgentRuns.CollectExact | agent.go:146-185 | a collection ends exactly the registrations with a deadline before its time, one time-out event each for the handler set then, and leaves the others with their deadlines |
| AgentRuns.StartExact | agent.go:116-132 | registers with the deadline exactly if open and not there already; otherwise the error says which and nothing changes |
| AgentRuns.StopExact | agent.go:80-100 | makes one event with the error given, for the handler set then, exactly if open and registered; otherwise the error says which and nothing changes |
| AgentRuns.ProcessExact | agent.go:188-205 | makes one event without an error, registered or not |
| AgentRuns.CloseExact | agent.go:223-243 | tells the handler of every registered id, once each, that the agent is closed |
| AgentRuns.SetHandlerExact | agent.go:208-219 | a new handler gets the events made after it is set and no earlier one |
| AgentRuns.DeliverExact | agent.go:174-182 | a delivery hands over one pending event as it was made and leaves the others |
| AgentObject.Agent.constructor | agent.go:19-32 | a new agent is open and empty |
| AgentObject.Agent.Start | agent.go:116-132 | registers unless closed or there already |
| AgentObject.Agent.StopLocked | agent.go:80-95 | takes the id out, with an error if it was not there |
| AgentObject.Agent.CollectLocked | agent.go:146-173 | returns each expired id once and takes exactly those out |
| AgentObject.Agent.Gather | agent.go:161-165 | each id with a deadline before the given time, once |
| AgentObject.Agent.ProcessLocked | agent.go:188-202 | takes the id out if the agent is open |
| AgentObject.Agent.SetHandler | agent.go:208-219 | changes the handler of an open agent only |
| AgentObject.Agent.Registered | agent.go:233-236 | every registered id, once |
| AgentObject.Agent.CloseLocked | agent.go:237-239 | closed, empty and without a handler |
| MessageTypes.TypeRoundTrip | message.go:573-621 | a type survives its 16-bit word if and only if its method has 12 bits and its class 2 |
| MessageTypes.WordRoundTrip | message.go:573-621 | every word reads as a type in range and is written back with only its top two bits lost |
| MessageTypes.WrittenPlaces | message.go:573-604 | bits 0-3, 5-7 and 9-13 of the word are bits 0-3, 4-6 and 7-11 of the method, bits 4 and 8 are those of the class, for every type |
| MessageTypes.ReadPlaces | message.go:607-621 | the same for reading every word |
| MessageTypes.BindingWords | message.go:573-604 | the words of the four classes of a Binding message |
| Wire.DecodeIff | message.go:369-431 | decoding succeeds if and only if there is a header with the cookie, the declared size is there and the body splits into padded attributes with nothing left over; the result is that split, and the size is a multiple of four and the sum of its parts |
| Wire.ParseComplete | message.go:396-428 | every body of the grammar is read as its attributes, whatever the padding holds |
| Wire.ParseSound | message.go:396-428 | what is read without an error comes from a split of the body |
| Wire.ParseBroken | message.go:403-424 | where the attributes end in something that is not one, those before it are read and the error tells which part is missing |
| Wire.ParseSplit | message.go:402-428 | every sequence of octets is a list of attributes followed by nothing or by such a remainder |
| Wire.DecodeHeader | message.go:369-394 | which buffers are refused and for what, in terms of their octets, and what is read of the header of the others |
| Wire.AttrOctets | message.go:184-214 | every octet of an attribute: type and length with the high octet first, the value, then zeros |
| Wire.AttrLength | attributes.go:243-250 | an attribute takes the least multiple of four octets that holds its header and value |
| Base.NetworkOrder | message.go:194-195 | 16- and 32-bit fields have their most significant octet first |
| Wire.HeaderOctets | message.go:292-300 | every octet of a header |
| Wire.OnlyOldNumberReplaced | attributes.go:255-261 | only 0x8020 is read as another number, 0x0020 |
| Wire.PrintExample | message.go:165-217 | the octets of one concrete message |
| Wire.ParseSize | message.go:396-428 | the attributes read take exactly the octets of the body |
| Wire.DecodePrinted | message.go:369-431 | the encoding of a message that fits, followed by anything, decodes to its type, id and attributes, with the old type number of XOR-MAPPED-ADDRESS replaced |
| Wire.RoundTripIff | message.go:165-217 | encoding then decoding gives the message back if and only if its type is in range, its attributes fit 16 bits of length and none has the replaced type number |
| Wire.EncodeAppend | message.go:165-217 | encodings and sizes of lists of attributes add up |
| Slices.Append | message.go:215 | the octets appended show behind the old ones, in place if the capacity allows and otherwise in a new array with the old one left alone |
| Buffers.Grow | message.go:149-159 | at least the length asked for, with the old octets in front, in the same array or a new one |
| Buffers.WriteTlv | message.go:184-196 | type, length and value stand in the buffer, the value being what its window showed before anything was written, even a window of the same array |
| Buffers.PutAttr | message.go:178-214 | the octets of a whole attribute with zero padding after what was there, whatever the buffer held; the returned window shows the value even if padding moved the buffer |
| Buffers.PutNext | message.go:165-217 | the header, the body and the attribute under the new length, over whatever followed the body; nothing else changes |
| Buffers.PadNeeded | message.go:199-201 | the test on the 16-bit length asks for padding exactly when the value needs it |
| Buffers.PutLength | message.go:286-289 | only the length field changes |
| Buffers.PutHeader | message.go:292-300 | the twenty octets of the header over whatever was there |
| AttributeLists.AddAttr | message.go:165-217 | appends an entry that shows its value; every earlier entry still shows its own, across reallocation, and lies where a rewrite can take it from |
| AttributeLists.AddKeeping | message.go:165-217 | windows of the same buffer that start past the new attribute are not hit |
| AttributeLists.Rewrite | message.go:308-315 | lays every attribute down again from windows of the very buffer being written, without overwriting one that is still to be copied |
| AttributeLists.RewrittenIsEncoded | message.go:308-315 | the rounds of a rewrite together give the encoding of the list under its length, if there is at least one |
| AttributeLists.ReadFront | message.go:408-424 | the attribute at the front of the rest, or the error for a value that is not all there |
| AttributeLists.ReadBody | message.go:396-428 | the list shows exactly what the parser reads, up to the first error, through windows of the body |
| AttributeLists.IndexOf | attributes.go:18-26 | the index of the first attribute of a type |
| Messages.Message.Add | message.go:165-217 | for any message with a header and a body, decoded ones included: the octets up to the end of the body, the attribute with zero padding, and the new length, over whatever followed; every attribute shows its value; the encoding of a message becomes that of the longer one |
| Messages.Message.Get | attributes.go:226-233 | the value of the first attribute of the type, if any |
| Messages.Message.SetType | message.go:318-327 | only the two octets of the type change, the attributes show what they did, and an encoding becomes that with the new type |
| Messages.Message.SetTransactionID | message.go:646-651 | only the twelve octets of the id change, the attributes show what they did, and an encoding becomes that with the new id |
| Messages.Message.Reset | message.go:142-146 | empty slices over the same arrays |
| Messages.Message.WriteHeader | message.go:292-300 | the header over the first twenty octets and nothing else; in an emptied buffer with any capacity, the encoding of the message without attributes |
| Messages.Message.WriteAttributes | message.go:308-315 | the attributes show the same values, now in the rewritten buffer |
| Messages.Message.Encode | message.go:330-335 | for any message that was built, decoded or encoded, less any attributes: the buffer is the encoding if and only if there is an attribute or the old length was zero modulo 65536 |
| Messages.Message.Decode | message.go:369-431 | type, length, id, attributes and error depend on the octets alone, which stay as they are; a refused buffer leaves the message and its attributes as they were |
| Messages.EncodedIff | message.go:330-335 | when a rewrite under a header with a given length gives the encoding |
| Messages.PrintSnoc | message.go:165-217 | one more attribute and a new length turn the encoding of a list into that of the longer one |
| Reencode.DropAndEncode | message.go:308-335 | decode, drop any attributes, encode in place: the buffer decodes to the same type and id with just those left if any is left or none was there, and is refused otherwise |
| Reencode.DropLeavesAhead | message.go:308-315 | after a decode, whatever is dropped, each remaining value lies past where its header will be written |
| Reencode.DecodedRepresentable | message.go:369-431 | what a decode returned, less any attributes, survives the wire again |
| Reencode.EmptyEncodingRefused | message.go:330-335 | a bare header that claims a body does not decode |
| Hmacs.Hmac.New | internal/hmac/hmac.go:127-150 | stands for its key with nothing written |
| Hmacs.Hmac.ResetTo | internal/hmac/pool.go:13-38 | from any earlier state, stands for the new key with nothing written |
| Hmacs.Hmac.Write | internal/hmac/hmac.go:71-73 | stands for the same key with more written |
| Hmacs.Hmac.Sum | internal/hmac/hmac.go:54-69 | appends H(K xor opad, H(K xor ipad, text)) under its key and stands for the same afterwards, in either representation |
| Hmacs.Hmac.Reset | internal/hmac/hmac.go:78-121 | stands for the same key with nothing written; holds saved states afterwards if and only if it did or both could be saved |
| Hmacs.Hmac.SaveStates | internal/hmac/hmac.go:90-121 | replaces the padded keys by the hash states after them if and only if both could be saved |
| Hmacs.Replay | internal/hmac/pool.go:49-62 | any history of calls on a pooled object in any state gives, for each `Sum`, the plain definition on the latest key and what was written since the latest reset |
| Hmacs.NewHmac | integrity.go:43-49 | appends the code of the message under the key |
| Hmacs.MacSize | internal/hmac/hmac.go:54-69 | a code has the size of the hash |
| Hmacs.MacSpelled | internal/hmac/hmac.go:127-150 | for a key no longer than a block, the code in terms of pads given octet by octet |
| Hmacs.LongKey | internal/hmac/hmac.go:134-138 | a longer key stands for its digest |
| Hmacs.SumAnswers | internal/hmac/hmac.go:54-121 | after any history, a key, a reset, writes, a sum, more writes and a sum, both sums answer for that key and what was written since that reset |
| IntegritySpec.PrefixArithmetic | integrity.go:106-124 | the subtractions stay in the buffer, and the start is the header of the first MESSAGE-INTEGRITY if and only if its padded value has 20 octets |
| IntegritySpec.IntegrityExact | integrity.go:98-130 | whatever 20 octets stand in the first MESSAGE-INTEGRITY of a message and whatever follows, a check succeeds if and only if they are the code of the message in front of them and otherwise reports a mismatch, as built and as decoded |
| IntegritySpec.VerdictExact | integrity.go:98-130 | in any buffer a check succeeds if and only if the 20 octets are the code of the octets in front of the attribute under the length that counts it last |
| IntegritySpec.VerdictRefuses | integrity.go:98-102 | not found exactly if there is no such attribute; a value of another size is a mismatch |
| IntegritySpec.SignedIsSent | integrity.go:64-90 | what is signed is what is sent in front of the code, length field included |
| IntegritySpec.CheckCoversSigned | integrity.go:98-124 | what a check covers is what was signed, whatever was added later |
| IntegritySpec.IntegritySurvives | integrity.go:64-130 | a signed message checks under the same key whatever is added after it and follows it in the buffer, as built and as decoded |
| IntegritySpec.SignedVerdict | integrity.go:64-130 | of any buffer signed as it is, the check covers what was signed if and only if nothing follows the body, and then succeeds |
| IntegritySpec.VerdictKept | integrity.go:98-130 | adding any attribute to any buffer that has a MESSAGE-INTEGRITY keeps the verdict of its check |
| IntegritySpec.CheckCoversBody | integrity.go:98-124 | with the first MESSAGE-INTEGRITY last, a check covers the buffer up to it under the full length |
| IntegritySpec.FingerprintStart | fingerprint.go:59-72 | in any buffer the check covers the octets before the attribute if and only if nothing follows it, in the message or in the buffer |
| IntegritySpec.FingerprintExact | fingerprint.go:59-72 | whatever value stands in a FINGERPRINT at the end, a check succeeds if and only if it is that of the message in front of it and otherwise reports a mismatch, as built and as decoded |
| IntegritySpec.StampExact | fingerprint.go:59-72 | in any buffer a check succeeds if and only if the four octets are the value of all but the last eight octets |
| IntegritySpec.FingerprintRefuses | fingerprint.go:59-66 | not found exactly if there is no such attribute, refused for its size exactly if the value has not four octets |
| IntegritySpec.FingerprintMask | fingerprint.go:38-40 | every bit of the value is that of the CRC, inverted where 0x5354554e has a one |
| IntegritySpec.StampedIsSent | fingerprint.go:43-55 | what is stamped is what is sent in front of the value, length field included |
| IntegritySpec.FingerprintSurvives | fingerprint.go:43-72 | a message stamped last checks, as built and as decoded |
| IntegritySpec.StampedVerdict | fingerprint.go:43-72 | of any buffer stamped as it is, the check covers what was stamped if and only if nothing follows the body, and then succeeds |
| IntegritySpec.BothSurvive | fingerprint.go:43-72 | a message signed, extended and stamped last passes both checks, as built and as decoded |
| IntegritySpec.CompatSame | attributes.go:255-261 | reading old type numbers changes no size and moves no other type |
| Integrity.AddIntegrity | integrity.go:64-90 | appends the code of the buffer as it is under the longer length, so that an encoding becomes that of the signed message; nothing changes and an error is returned if and only if there is a FINGERPRINT |
| Integrity.SizeAfter | integrity.go:106-119 | the octets taken by the attributes after the first of a type |
| Integrity.ReducedLength | integrity.go:106-123 | the uint32 subtractions, which never wrap, give the covered size and the start |
| Integrity.CheckIntegrity | integrity.go:98-130 | the verdict that `VerdictExact` and `VerdictRefuses` spell out, with buffer, length and attributes as before |
| Integrity.AddFingerprint | fingerprint.go:43-55 | appends the value for the buffer as it is under the longer length, so that an encoding becomes that of the stamped message |
| Integrity.CheckFingerprint | fingerprint.go:59-72 | the verdict that `StampExact` and `FingerprintRefuses` spell out |
| Integrity.CheckAll | helpers.go:52-60 | succeeds if and only if each check alone would, fails with the first that would, and leaves the message as it was |
| Integrity.ClaimsExact | helpers.go:52-60 | of a message with any code and any value at the end, each check answers for its own |
| Pipeline.CloneTo | message.go:443-447 | the other message has the same octets, even if they shared an array, and, if they decode, reads as they do |
| Pipeline.ReceiveAndCheck | message.go:443-447 | a copy has the same octets, decodes if and only if they do and then reads as they do, and its checks give the verdict on the octets |
| Pipeline.SendAndCheck | integrity.go:64-130 | sign, extend, stamp, copy, decode: both messages end with the octets of the signed and stamped one, without an error, and both checks succeed on both in any order and any number of times |
| Pipeline.SignStampAndCheck | helpers.go:39-60 | the buffer becomes the encoding of the signed, extended and stamped message, on which both checks succeed in any order and any number of times |
| Pipeline.SignAndCheck | integrity.go:64-130 | any decoded message is extended by the code of the octets it has, the check gives the verdict on the result, and that is success if nothing followed the body |
| Pipeline.CheckClaimedCode | integrity.go:98-130 | a message with any 20 octets as its code, checked, copied, decoded and checked again: both checks succeed exactly if they are the right ones and otherwise report a mismatch |
| Pipeline.CheckClaimedStamp | fingerprint.go:59-72 | the same for any value in a FINGERPRINT at the end |
| Pipeline.SendXorAddress | xoraddr.go:54-128 | add, copy, decode and read into a reused address: both messages have the octets with the attribute, and the same port and address come back, with a mapped IPv4 address as four octets; only other lengths are refused |
| Pipeline.SendPlainAddress | addr.go:67-125 | the same for MAPPED-ADDRESS |
| Pipeline.ReceiveXor | xoraddr.go:89-128 | what is read from a decoded copy depends on the octets alone, whatever the reused address held |
| Pipeline.ReceivePlain | addr.go:67-100 | the same for MAPPED-ADDRESS |
| Pipeline.BuildAndDecode | helpers.go:39-49 | build in a used buffer, copy, decode: both messages have the encoding of what the setters make, and the copy reads as the same whenever that can be represented |
| Addresses.XorRoundTrip | xoraddr.go:54-128 | reading an XOR-MAPPED-ADDRESS value gives the address and the low 16 bits of the port that were written |
| Addresses.PlainRoundTrip | addr.go:67-125 | the same for MAPPED-ADDRESS |
| Addresses.XorOctets | xoraddr.go:68-76 | every octet written: family, port and address in this order, the port and the address combined with the octets of the header after its length field |
| Addresses.ReadXorOctets | xoraddr.go:89-128 | which values are read, for what the others are refused, and every octet of what is read |
| Addresses.PlainOctets | addr.go:103-125 | every octet written |
| Addresses.ReadPlainOctets | addr.go:67-100 | which values are read, for what the others are refused, and every octet of what is read |
| Addresses.WireIPCases | xoraddr.go:54-67 | which octets travel, for each form of address |
| Addresses.XorExample | xoraddr.go:54-128 | 192.0.2.1 and port 32853, written and read |
| Base.Xor16Octets | xoraddr.go:75 | a 16-bit exclusive-or is that of its two octets |
| Base.XorBit | xoraddr.go:76 | every bit of an exclusive-or is set exactly where the two numbers differ |
| Addresses.XorOverTheWire | xoraddr.go:54-128 | the same through encoding and decoding a whole message, with mapped IPv4 addresses coming back as four octets |
| Addresses.PlainOverTheWire | addr.go:67-125 | the same for MAPPED-ADDRESS |
| Addresses.IsZeros | xoraddr.go:40-48 | true if and only if every octet is zero |
| Addresses.ChooseIP | xoraddr.go:34-67 | the octets that travel for each length and form of address, or none |
| Addresses.AddXor | xoraddr.go:54-79 | appends the attribute that `XorOctets` spells out to any message with a header and a body, or changes nothing and fails if and only if the length is not that of an address |
| Addresses.AddPlain | addr.go:103-125 | the same for MAPPED-ADDRESS |
| Addresses.MappedAddress.GetXor | xoraddr.go:89-128 | the address that `ReadXorOctets` spells out from the first attribute of the type, whatever the reused slice held, or the error; the message keeps its octets and its values |
| Addresses.MappedAddress.GetPlain | addr.go:67-100 | the same for MAPPED-ADDRESS |
| Builds.Build | helpers.go:39-49 | the result is what the setters make of the type and id, stopping at the first that fails; nothing that was in the buffer or its spare capacity shows |
| Builds.ApplyEach | helpers.go:39-49 | setters in order, up to the first that fails, take one encoding to the next |
| Builds.ApplySetter | helpers.go:39-49 | each setter takes the encoding of a message to that of the next |
| Builds.AllInOrder | helpers.go:39-49 | setters are applied in order and none after the first that fails |
| Builds.SetterFails | helpers.go:39-49 | which setters fail, and that they change nothing |
| Builds.FieldFound | message.go:540-544 | a decoder finds the type or id that was set, and all else as it was |
| Builds.AttributeFound | helpers.go:39-49 | a decoder finds the attributes there were and one more, of the right type, with the value or the address that was given |
| Builds.CheckFound | helpers.go:39-49 | what signing and stamping add passes its check |
| ForEachAttribute.ForEach | helpers.go:99-115 | the k-th call sees the k-th value of the type through `Get`, whatever earlier calls did to the fields of the message; calls stop at the first error, which is returned; the message has its own attributes back on every exit |
| ForEachAttribute.VisitAt | helpers.go:99-115 | what `Get` finds in a list cut at an attribute of the type |

## Left out

- Overlapping calls of one client: each call, tick and incoming message runs to completion, events included, and handlers do not call back into the client; `OverlapIff` and `RefusedStartAnswered` show what that excludes. The agent alone is interleaved.
- Pools: transactions are fresh objects; pooled HMAC objects and resend buffers start in an arbitrary state.
- Times and durations are unbounded integers, so a deadline past the range of 64 bits is not modelled.
- The message inside an event, and the arguments of handlers beyond the event: handlers are named by the transaction they belong to.
- Agents other than the default one, and an agent shared by several clients.
- Client options, `Do`, `Indicate`, dialling, TLS and DTLS, the reading and ticking goroutines, closing the connection and collector, the finalizer and logging.
- Messages.Message.Add: needs a body below 2^32 octets and a buffer that has all of the body the length claims, as after any build or decode, and a value that is not in the four octets its own type and length go to, which are written before it is copied; `PutAttr` covers the writing itself for any buffer.
- Messages.Message.Encode: needs values that lie past where their headers will be written, as they do in any message that was built, decoded or encoded, and after dropping attributes in order (`DropLeavesAhead`); a list that was put in another order by hand is not covered.
- Messages.Message.WriteAttributes: is stated for a buffer cut back to its header, as `Encode` calls it.
- Integrity.CheckIntegrity: needs a message that was built or decoded, so that its length field and attributes agree with its buffer.
- Pipeline.SendAndCheck: needs attributes that fit the 16-bit length field.
- Addresses.MappedAddress.GetXor: needs a value of at least two octets, because the source reads the family first, and a destination that does not overlap the message, because it is cleared before the value is read.
- Addresses.MappedAddress.GetPlain: needs a destination that does not overlap the message, for the same reason.
- ForEachAttribute.ForEach: the callback may change every field of the message, but not the octets of the values or the entries of the list it was given.
- Hash functions, CRC-32 and MD5: parameters, hashes with the laws stated in `Hmacs.Lawful`. Comparison of codes is plain equality, not constant time. Derivation of long-term keys is not modelled.
- Buffers of a pooled HMAC object are taken not to be shared with the message it signs.
- `ReadFrom`, `WriteTo` and `Write` of a message, gob and binary marshalling, `Equal`, `Contains`, `IsMessage`, `String` methods, random transaction ids.
- Text attributes, error codes, unknown attributes, URIs: thin or mostly in other libraries; they would add only easy members.
- Commands, end-to-end tests and test helpers.
