# DIMQ: a verified model of the client's message engine and of its JSON library

DIMQ is an MQTT client library in C together with the code it is built on: cJSON and cJSON_Utils
for JSON text, pointers and patches, uthash for hash tables, utlist for linked lists. This project
models the hardest parts of it in Dafny and proves what they are for.

`dafny verify dfyconfig.toml` verifies everything.

## What is modelled

**The MQTT session** (`Session*.dfy`). The two message lists of a client, the send and receive
quotas, and every operation that touches them: queueing, release into the send window, PUBACK,
PUBREC, PUBREL, PUBCOMP, PUBLISH, CONNACK, reconnection, retransmission, and setting the send
maximum. `SessionState` gives each operation as a function from state to state and a run as a
sequence of steps in any order. `SessionEngine` has the operations in the source's own form, loops
over the lists of an object, and proves that they compute those functions. The theorems are about
all runs: nothing is lost, every packet gets its reply and nothing else does, a QoS 2 message is not
published again after its PUBREC, it is delivered once, the send window and the receive quota hold,
the sender does not stall. Some of these are not true without conditions on the peer; the conditions
are stated, exactly where that is possible, and counterexample runs are given.

**JSON trees** (`Json`, `JsonSort*`, `JsonOrder`, `JsonPointer*`, `JsonPatch*`, `JsonMerge*`).
Comparison up to member order, JSON Pointer (RFC 6901), JSON Patch (RFC 6902) and JSON Merge Patch
(RFC 7396): generating a patch and applying it to a copy are inverse, a patch is generated exactly
for each place where the trees differ, move, copy and test do to maps what their names say, merging is
the algorithm of section 2 of RFC 7396, whether a merge patch restores its target is decided exactly, and pointers
lead to the node they were made for.

**JSON text** (`JsonText`, `JsonParse`, `JsonTreeRoundTrip`, `JsonTokens`, `JsonUnicode`,
`JsonTextRoundTrip`, `JsonGrammar`, `JsonLayout`, `JsonDecoder`, `JsonParser`, `JsonPrinter`). Printing
and parsing are inverse, the parser accepts exactly a grammar, escapes stand for the code points they
spell, and the layout of printed text follows a rule on the text alone. The parser, the
string decoder and the printer are modelled with their buffers, and the bounds on those buffers are
exact: a fixed buffer suffices if and only if it holds two more bytes than the text, and the decoded
string never exceeds the allocation that was computed for it.

**Containers** (`HashTable`, `HashGrowth`, `HashEngine`, `LinkedList`, `ListSort`, `ListEnds`,
`ListAppend`, `DlSort`, `DlSortEngine`, `VarInt`). The hash index always agrees with a plain list, and
it is exact when it grows. Linked lists are modelled
as nodes with `next` and `prev` fields that the methods rewrite. Two merge sorts are proved on them,
one recursive and one bottom-up; the second is also shown to be stable, and the first to leave lists
that a later append can damage, with the exact condition. Variable byte integers have one encoding
each.

Modules ending in `Engine`, and `JsonParser`, `JsonPrinter`, `JsonDecoder`, `ListSort`,
`ListAppend` and `LinkedList`, hold the imperative code; the others hold the functions it is proved
against and the theorems about them.

## Where the code differs from what one would expect

The model follows the code. These are the places where a property one would ask for fails, each
with a counterexample and the condition under which it holds.

- A repeated QoS 2 PUBLISH is stored a second time and delivered twice
  (`RepeatedPublishDeliversTwice`; `RepeatedPubrelIff`, `DeliveredExactlyOnce`). Section 4.3.3 of
  MQTT 5.0 asks for one delivery.
- A CONNACK that lowers the Receive Maximum puts an acknowledged message back among the waiting
  ones, and it is published again (`ShrunkMaximumRepublishes`; `ResetKeepsAckedIff`).
- handle__pubackcomp gives quota back before it has looked at the packet, so a stray acknowledgement
  puts more messages into flight than the broker allows (`StrayAckOverfillsWindow`; `AckWindowIff`).
- A PUBREL that names no stored message gives receive quota back all the same, so the client can store
  more messages than its Receive Maximum (`BalanceIff`; `QuotaIsExact`).
- decode_array_index_from_pointer takes letters for digits after the first (`LetterInIndex`;
  `IndexIff`).
- Four characters behind \u that are not hexadecimal digits are taken for NUL, which ends the string
  (`BadDigitsReadAsNul`).
- A move whose target cannot be reached removes the value before it fails (`MoveEffect`), whereas a
  replacement is all or nothing (`ReplaceIsAtomic`).
- decode_pointer_inplace spoils names with '/' and some with '~' (`SpoiltNames`, `SurvivesIff`).
- detach_path ignores case even in case-sensitive calls (`CaseClashRemovesTheWrongMember`,
  `RemovalIsRightIff`).
- generate_merge_patch ignores case below the top level in case-sensitive calls: a member can be lost,
  and no patch at all can be returned for trees that differ (`MixedCaseLosesMember`,
  `NoPatchForDifferentTrees`; `RestoredIff`).
- sort_list does not set the head's prev, on which add_item_to_array relies. Trees that have been
  sorted in place, by generating a patch or a merge patch from them or by a test operation, can lose
  members in later additions (`AdditionIsLost`; `SortThenAdd`, `FirstStaysIff`, `LastStaysIff`). The round trips are
  therefore about copies.
- The header of cJSON advises callers of cJSON_PrintPreallocated to allow five extra bytes; two are
  enough and needed (`PrintPreallocated`).

## Model

| member | source | states |
|---|---|---|
| SessionTheorems.TypedStep | lib/messages_dimq.c:122-343 | every handler keeps the outgoing list in states that fit each message's QoS, the incoming list in the waiting state, the counters equal to the lengths, and records distinct |
| SessionTheorems.TypedAlways | lib/messages_dimq.c:122-343 | the same after any sequence of calls and packets, from a new client |
| SessionTheorems.LeavesOnlyWhenAcknowledged | lib/messages_dimq.c:223-276 | an outgoing message leaves the list in no step but the PUBACK, PUBCOMP or refusing PUBREC that carries its own identifier and QoS; reconnection and resets never lose one |
| SessionTheorems.ConservedStep | lib/messages_dimq.c:88-276 | one step keeps the account of each record: in the list, or reported once |
| SessionTheorems.ConservedAlways | lib/messages_dimq.c:88-276 | over all runs, each accepted outgoing message is either still in the list or was reported complete exactly once; each stored incoming message is in the list, delivered once, or dropped once |
| SessionTheorems.MidsDiffer | lib/util_dimq.c:136-155 | message identifiers are never 0 and do not repeat within 65535 calls |
| SessionSafety.ReleasedAt | lib/messages_dimq.c:192-220 | a queued message is started exactly when fewer queued messages precede it than the quota allows |
| SessionSafety.ReleaseIsExhaustive | lib/messages_dimq.c:192-220 | a release moves quota into the window one for one, starts the earliest first, and leaves a message queued only if the quota is used up |
| SessionSafety.AckWindowIff | lib/handle_pubackcomp.c:60-158 | the exact condition under which a PUBACK or PUBCOMP, well formed or not, keeps messages in flight plus quota within the maximum |
| SessionSafety.ResetKeepsAckedIff | lib/messages_dimq.c:140-189 | a reset leaves all acknowledged QoS 2 messages in a state from which only PUBREL is sent if and only if they sit below the send maximum |
| SessionSafety.ResetThenRetry | lib/messages_dimq.c:163-314 | what a reset and the retransmission after it send for each message: PUBREL after its PUBREC, PUBLISH with DUP otherwise, nothing outside the window |
| SessionSafety.SafeStep | lib/messages_dimq.c:122-343 | each step by a well-behaved peer keeps the send window and the QoS 2 order together |
| SessionSafety.SafeAlways | lib/messages_dimq.c:122-343 | both over all runs with a well-behaved peer |
| SessionSafety.NoPublishAfterPubrec | lib/handle_pubrec.c:104-131 | over all such runs, no PUBLISH is sent for a record after its PUBREC, as section 4.3.3 of MQTT 5.0 demands, across reconnections and retransmissions |
| SessionSafety.SendWindowAlways | lib/messages_dimq.c:140-220 | over all such runs, while connected, messages in flight and remaining quota together stay within the maximum (section 4.9 of MQTT 5.0) |
| SessionProgress.NeverStalls | lib/messages_dimq.c:140-220 | over all runs, with any peer, the send maximum is positive, an empty list leaves quota for the next message, and otherwise the first message has been started; on an accepted connection it was sent |
| SessionProgress.MaximumStays | lib/property_dimq.c:952-957 | no step makes the send maximum 0: the code refuses a CONNACK that announces 0, and the option 0 means the largest |
| SessionProgress.ResetFlowsIff | lib/messages_dimq.c:163-188 | a reset leaves the first message started, or quota for one, if and only if the maximum is not 0 |
| SessionProgress.StartedIsSent | lib/messages_dimq.c:192-314 | over all runs, with any peer, while the connection is up and accepted, every message that has left the waiting state was handed to the network or has its PUBREC, although a release without a socket starts a message it cannot send |
| SessionReplies.ReplyLaw | lib/handle_publish.c:124-166 | every step adds to the trace exactly what it owes, counted event by event: a QoS 1 PUBLISH one PUBACK and one delivery, QoS 0 one delivery, QoS 2 one PUBREC, a PUBREL one PUBCOMP and its stored message, a PUBREC one PUBREL also for an unknown identifier, an acknowledgement one completion; nothing else causes any of these, except that a reconnection sends the PUBRELs of messages in progress again |
| SessionReplies.RepliesOverRuns | lib/handle_publish.c:124-166 | over all runs, with any peer, the trace holds each of these events as often as it was owed |
| SessionReplies.PubrecIsAnswered | lib/handle_pubrec.c:104-131 | over all runs, a PUBREC matched with a record is followed at once by a PUBREL, with the identifier under which every PUBLISH of that record was sent (section 4.3.3 of MQTT 5.0) |
| SessionReplies.NamedAlways | lib/util_dimq.c:136-155 | over all runs the n-th record has the n-th identifier of the cycle, in the list and in every PUBLISH |
| SessionReplies.PubrecRecorded | lib/messages_dimq.c:323-343 | a PUBREC that is answered makes the first record under its identifier wait for PUBCOMP and changes no other, nor the quota |
| SessionReplies.ReleaseSendsStarted | lib/messages_dimq.c:192-220 | with a connection a release sends one PUBLISH for each record it starts, with that record's identifier and DUP flag, and nothing else |
| SessionReplies.ConnackTimes | lib/messages_dimq.c:278-314 | what an accepted CONNACK sends again, counted: a PUBLISH with DUP for each unacknowledged record and a PUBREL for each one past its PUBREC, among the records within the maximum that it announces |
| SessionReplies.PublishLaw | lib/messages_dimq.c:192-314 | every step sends a PUBLISH exactly for the records it brings under way while there is a socket, and for those that a reconnection sends again |
| SessionReplies.PublishStores | lib/actions.c:111-162 | publishing appends one record with the next identifier, keeps the others, and starts it if and only if the quota covers it and all that wait before it |
| SessionReplies.ConnectionLaw | lib/handle_connack.c:59-136 | which steps change the socket, the accepted state and the send maximum, and to what; all others leave them |
| SessionReceiveWindow.ResetBalances | lib/messages_dimq.c:145-160 | a reset makes receive quota and stored records equal the maximum if and only if the records fit, and leaves no quota otherwise |
| SessionReceiveWindow.BalanceIff | lib/send_dimq.c:77-103 | quota plus stored records stays at the maximum in every step but two: a PUBREL that names no stored record while others are stored, and a PUBLISH taken without quota |
| SessionReceiveWindow.QuotaIsEnough | lib/util_dimq.c:210-237 | over all runs, with any peer, the receive quota is at least what the stored records leave of the maximum and never above it |
| SessionReceiveWindow.QuotaIsExact | lib/util_dimq.c:210-237 | with MQTT 5.0 and no stray PUBREL it is exactly that |
| SessionReceiveWindow.StoredIffRoom | lib/handle_publish.c:158-166 | then a QoS 2 PUBLISH is stored if and only if fewer records than the Receive Maximum are |
| SessionReceiver.DeliveredOnlyOnPubrel | lib/handle_pubrel.c:109-137 | no step of any kind delivers a stored message except a PUBREL with its identifier whose PUBCOMP could be sent |
| SessionReceiver.RepeatedPubrelIff | lib/handle_pubrel.c:109-137 | a repeated PUBREL delivers nothing if and only if no second record was stored under the identifier |
| SessionReceiver.OrderlyAlways | lib/handle_publish.c:158-166 | if no PUBLISH reuses an identifier that awaits its PUBREL and PUBCOMPs go out, stored identifiers stay distinct and nothing is dropped |
| SessionReceiver.DeliveredExactlyOnce | lib/handle_pubrel.c:109-137 | in every such run a stored message has been delivered exactly once if it has left the list, and not at all before |
| SessionReceiver.RepeatedPublishDeliversTwice | lib/handle_publish.c:158-166 | a concrete run in which a repeated PUBLISH reaches the application twice |
| SessionReceiver.ShrunkMaximumRepublishes | lib/handle_connack.c:108-113 | a concrete run in which a smaller Receive Maximum makes the client publish again after PUBREC |
| SessionReceiver.StrayAckOverfillsWindow | lib/handle_pubackcomp.c:60-62 | a concrete run in which a PUBACK for an unused identifier puts two messages into a window of one |
| SessionState.Released | lib/messages_dimq.c:192-220 | a release changes nothing but the state of queued messages, and keeps every place in the list |
| SessionState.FirstMid | lib/messages_dimq.c:233-246 | the index found is the first with the identifier, and the length only if there is none |
| SessionEngine.Session.constructor | lib/dimq.c:140-226 | a new session is the state every run theorem starts from, with both quotas at 20 |
| SessionEngine.Session.ReleaseToInflight | lib/messages_dimq.c:192-220 | the loop over the list starts exactly the messages the quota allows, sends their packets in order, and stops at the first failed send |
| SessionEngine.WalkIsRelease | lib/messages_dimq.c:192-220 | the walk message by message, with its early exits, equals the release defined by counting |
| SessionEngine.Session.QueueOut | lib/messages_dimq.c:122-138 | the message goes to the end of the list and a release follows |
| SessionEngine.Session.QueueIn | lib/messages_dimq.c:122-138 | the incoming message goes to the end of its list and nothing is released |
| SessionEngine.Session.ResetIncoming | lib/messages_dimq.c:145-160 | the loop drops all but QoS 2 records and takes the kept ones out of the receive quota |
| SessionEngine.Session.ResetOutgoing | lib/messages_dimq.c:163-188 | the loop reassigns every state and recomputes quota and length from the list |
| SessionEngine.Session.ReconnectReset | lib/messages_dimq.c:140-189 | both directions together are the reset that the theorems speak of |
| SessionEngine.Session.RemoveOut | lib/messages_dimq.c:230-252 | the search takes out the first record with the identifier, or reports not found or a QoS mismatch and changes nothing |
| SessionEngine.Session.RemoveIn | lib/messages_dimq.c:253-275 | the same on the incoming list, where a QoS other than 2 is a mismatch |
| SessionEngine.Session.OutUpdate | lib/messages_dimq.c:323-343 | the first record with the identifier gets the new state if its QoS is 2; otherwise the error is reported and nothing changes |
| SessionEngine.Session.Retry | lib/messages_dimq.c:278-314 | the loop retransmits every message according to its state, in order, with DUP set |
| SessionEngine.Session.FinishOut | lib/messages_dimq.c:88-99 | the message leaves the list and is reported once, or neither happens |
| SessionEngine.Session.PublishMessage | lib/actions.c:111-162 | publishing with QoS 1 or 2 is the step of PublishStores and PublishLaw, and its status says whether a send failed |
| SessionEngine.Session.HandlePubackComp | lib/handle_pubackcomp.c:41-162 | the handler is the acknowledgement step of ReplyLaw and AckWindowIff, with its status on every path |
| SessionEngine.Session.HandlePubrec | lib/handle_pubrec.c:40-133 | the handler is the PUBREC step that ReplyLaw, PubrecRecorded and PubrecIsAnswered are about, with its status on every path |
| SessionEngine.Session.TakeStored | lib/handle_pubrel.c:111-137 | the stored record leaves the list, and the application or nobody learns of it |
| SessionEngine.Session.HandlePubrel | lib/handle_pubrel.c:41-141 | the handler is the PUBREL step of ReplyLaw and BalanceIff, also when PUBCOMP cannot be sent |
| SessionEngine.Session.HandlePublish | lib/handle_publish.c:38-172 | the handler is the PUBLISH step of ReplyLaw and StoredIffRoom for every QoS, with the refusals |
| SessionEngine.Session.HandleConnack | lib/handle_connack.c:59-136 | the handler is the CONNACK step of the run model, with the status for every reason code; a Receive Maximum of 0 is a protocol error that changes nothing |
| SessionEngine.Session.Reconnect | lib/connect.c:157-227 | reconnecting resets the message store once more and is the reconnect step of the run model |
| SessionEngine.Session.SetSendMaximum | lib/options.c:450-459 | the maximum changes only for values of 16 bits, 0 means the largest, and the quota stays as it is |
| JsonSort.SortKeeps | cjson/cJSON_Utils.c:484-593 | sorting gives a permutation of the members |
| JsonSort.SortSorted | cjson/cJSON_Utils.c:484-593 | names never go down in the result, with either case rule |
| JsonSort.SortStrict | cjson/cJSON_Utils.c:484-593 | distinct names come out strictly ascending |
| JsonSortOrder.SortReversesEqual | cjson/cJSON_Utils.c:534-592 | members with equal names come out in reverse order, for every list and either case rule; with SortKeeps and SortSorted this determines the result |
| JsonSort.SortAsMap | cjson/cJSON_Utils.c:595-602 | sorting an object does not change which name has which value |
| JsonSort.CompareIffSame | cjson/cJSON_Utils.c:604-690 | for trees with distinct names, compare_json holds if and only if the trees are equal up to the order of members |
| JsonPatchEngine.CompareTrees | cjson/cJSON_Utils.c:604-690 | the loops decide that comparison and leave the objects they have reached sorted in both trees |
| JsonOrder.LeftReordered | cjson/cJSON_Utils.c:604-690 | what the comparison leaves differs from the trees it was given in nothing but the order of members |
| JsonOrder.SortIsReordering | cjson/cJSON_Utils.c:595-602 | the same for sort_object with either case rule |
| JsonPointer.EncodedLengthExact | cjson/cJSON_Utils.c:157-170 | the computed length is the length the encoder writes |
| JsonPointer.MatchesEncoded | cjson/cJSON_Utils.c:120-154 | a name matches an encoded token, followed by its end or a slash, if and only if it is the name that was encoded |
| JsonPointer.MatchesFolded | cjson/cJSON_Utils.c:120-154 | without regard to case it matches if and only if the folded names are equal |
| JsonPointer.TokenFindsName | cjson/cJSON_Utils.c:324-332 | looking up an encoded name finds the same member as looking up the name, with either case rule |
| JsonPointer.IndexRoundTrip | cjson/cJSON_Utils.c:274-299 | every array index is read back from its decimal text |
| JsonPointer.IndexIff | cjson/cJSON_Utils.c:274-299 | exactly which tokens are read as an index, and as which: no leading zero, a digit first, but any character from '0' on after it |
| JsonPointer.LetterInIndex | cjson/cJSON_Utils.c:284-288 | the token 1a is read as index 59 |
| JsonPointer.Resolve | cjson/cJSON_Utils.c:301-346 | a pointer that resolves leads to a node that is in the tree |
| JsonPointer.ResolveChild | cjson/cJSON_Utils.c:301-346 | following a token leads into exactly the child it was made for and goes on from there |
| JsonPointer.PointerRoundTrip | cjson/cJSON_Utils.c:198-346 | the pointer built for any node of a tree with distinct names resolves to that node |
| JsonPointer.DecodeEncoded | cjson/cJSON_Utils.c:359-390 | what the in-place decoder makes of an encoded name, character by character, for all names |
| JsonPointer.SurvivesIff | cjson/cJSON_Utils.c:359-390 | a name survives encoding and in-place decoding if and only if it has no slash and no character that its tildes shift |
| JsonPointer.TrailingSurvives | cjson/cJSON_Utils.c:359-390 | names without '/' whose only '~' are at the end survive |
| JsonPointer.PlainSurvives | cjson/cJSON_Utils.c:359-390 | names without '~' and '/' always survive |
| JsonPointer.SpoiltNames | cjson/cJSON_Utils.c:359-390 | names that do not survive, and one with a tilde that does |
| JsonPointerEngine.ComparePointers | cjson/cJSON_Utils.c:120-154 | the loop with its escapes decides the match that MatchesEncoded characterises |
| JsonPointerEngine.MeasureEncoded | cjson/cJSON_Utils.c:157-170 | the loop counts exactly the encoded length |
| JsonPointerEngine.EncodeInto | cjson/cJSON_Utils.c:173-196 | the loop writes the encoding and a terminator at the given place, within the measured room, and keeps what is before |
| JsonPointerEngine.DecodeBuffer | cjson/cJSON_Utils.c:359-390 | the two-pointer loop in one buffer computes the decoder that SurvivesIff is about |
| JsonPointerEngine.DecodeArrayIndex | cjson/cJSON_Utils.c:274-299 | the digit loop accepts the indices of IndexRoundTrip and refuses leading zeros and other text |
| JsonPointerEngine.FindChild | cjson/cJSON_Utils.c:301-346 | the search picks the child the first token names, or none |
| JsonPointerEngine.FindNode | cjson/cJSON_Utils.c:301-346 | the loop over tokens resolves the pointer |
| JsonPointerEngine.FindPointer | cjson/cJSON_Utils.c:198-259 | the recursive search finds the target in a subtree if and only if it is there, and returns the pointer that leads to it |
| JsonPatchLocality.ChangeBelow | cjson/cJSON_Utils.c:430-481 | detaching by a path that starts with a child's token is detaching inside that child |
| JsonPatchLocality.AddBelow | cjson/cJSON_Utils.c:959-1036 | adding by such a path is adding inside that child |
| JsonPatchLocality.OpBelow | cjson/cJSON_Utils.c:807-1036 | an operation whose path starts with a child's token acts on that child alone, with the same status |
| JsonPatchLocality.ApplyAppend | cjson/cJSON_Utils.c:1067-1094 | applying two lists of patches in turn is applying their concatenation, up to the first failure |
| JsonPatchLocality.ApplyBelow | cjson/cJSON_Utils.c:1067-1094 | the same for whole lists of patches under a child's token |
| JsonPatchTheorems.ItemsApply | cjson/cJSON_Utils.c:1170-1213 | the patches of the array walk turn one array into the other, also when lengths differ |
| JsonPatchTheorems.MembersApply | cjson/cJSON_Utils.c:1215-1274 | the patches of the merge join turn one object into the other from any point of the join on |
| JsonPatchTheorems.DiffApplies | cjson/cJSON_Utils.c:1141-1279 | generated patches succeed on the tree they were made from and give the target up to member order |
| JsonPatchTheorems.ApplyComposed | cjson/cJSON_Utils.c:1096-1134 | a composed patch document, read back, is the operation it was composed from |
| JsonPatchTheorems.PatchRoundTrip | cjson/cJSON_Utils.c:1067-1309 | generate, then apply to a copy of the source: status 0 and compare_json finds the outcome equal to the target, whenever the names that are removed, replaced or added can be addressed |
| JsonPatchMinimal.NothingGeneratedIff | cjson/cJSON_Utils.c:1141-1309 | for all trees with distinct names, no patch is generated if and only if the trees are equal up to the order of members |
| JsonPatchMinimal.GeneratedIffDiffers | cjson/cJSON_Utils.c:1141-1279 | a patch is generated if and only if the trees differ where it says: two values of different type, number or string are replaced, a longer array loses or gains its last items, a name only one object has is removed or added, and children with one index or name are compared in turn |
| JsonPatchMinimal.GeneratedPoints | cjson/cJSON_Utils.c:1141-1279 | followed in both trees, the path of every generated replacement leads to two values that differ themselves, with the new one in the patch; a removal or addition leads to two containers of one kind and names a child that only one of them has |
| JsonPatchMinimal.NoContainerReplaced | cjson/cJSON_Utils.c:1170-1274 | two arrays or two objects are never replaced as a whole, nor are two equal values |
| JsonPatchTransfer.OperationNames | cjson/cJSON_Utils.c:742-781 | each of the six operation names of RFC 6902 asks for its own operation, and any other name is status 3 |
| JsonPatchTransfer.MoveEffect | cjson/cJSON_Utils.c:905-1036 | move takes the child out of the container its path leads to and puts it at the place the other path leads to in the tree that is left; if that path leads nowhere, status 9 and the child is gone |
| JsonPatchTransfer.MoveWithin | cjson/cJSON_Utils.c:905-1036 | as maps: moving name a to name b of one object, at any depth, removes a and puts its value under b |
| JsonPatchTransfer.MoveItem | cjson/cJSON_Utils.c:905-1036 | moving an item within one array, at any depth |
| JsonPatchTransfer.MoveAcross | cjson/cJSON_Utils.c:905-1036 | moving a member between two objects, neither inside the other, changes these two and nothing else |
| JsonPatchTransfer.CopyEffect | cjson/cJSON_Utils.c:912-936 | copy puts the value its path leads to at the other place and leaves it where it is; status 5 or 9 and no change if a path leads nowhere |
| JsonPatchTransfer.CopyWithin | cjson/cJSON_Utils.c:912-936 | as maps: copying name a to name b of one object, at any depth, puts its value under b too |
| JsonPatchTransfer.AdditionStatus | cjson/cJSON_Utils.c:971-1030 | an addition fails with 9, 10 or 11 if and only if the parent is no container, the index is past the end, or the token is no index |
| JsonPatchTransfer.FailedAddition | cjson/cJSON_Utils.c:959-1036 | an addition that fails changes nothing, anywhere in the tree |
| JsonPatchTransfer.ReplaceIsAtomic | cjson/cJSON_Utils.c:887-1036 | a replacement with a value either succeeds or finds nothing and changes nothing |
| JsonPatchTransfer.TestEffect | cjson/cJSON_Utils.c:831-836 | a test has status 0 if and only if the node is there and equal to the value up to member order, and leaves the tree equal up to member order in any case |
| JsonPatchLimits.PlainNamesEditable | cjson/cJSON_Utils.c:430-481 | names without '~' and '/', distinct ignoring case in the source tree, satisfy the conditions of the round trip |
| JsonPatchLimits.RemovalIsRightIff | cjson/cJSON_Utils.c:430-481 | a generated removal takes out its own member if and only if that member is the first to match the decoded name ignoring case |
| JsonPatchLimits.AdditionIsRightIff | cjson/cJSON_Utils.c:959-1036 | a generated addition puts in its own name if and only if the name survives the decoder |
| JsonPatchLimits.ReplacementIsRightIff | cjson/cJSON_Utils.c:887-1036 | a generated replacement exchanges its own member and no other if and only if both hold |
| JsonPatchLimits.CaseClashRemovesTheWrongMember | cjson/cJSON_Utils.c:464-467 | an object in which the removal of "a" takes out "A" |
| JsonPatchLimits.SlashedNameIsNotFound | cjson/cJSON_Utils.c:359-390 | an object whose member cannot be removed because its name has a slash: status 13 |
| JsonPatchLimits.DiffIgnoresOrder | cjson/cJSON_Utils.c:1141-1279 | the generated patches do not depend on the order of members in the tree they start from |
| JsonPatchLimits.ReorderedRoundTrip | cjson/cJSON_Utils.c:1067-1309 | the round trip holds on a copy with its members in any order, so also on a copy that is made after generation has sorted the source |
| JsonPatchLimits.WrongRemovalsCancel | cjson/cJSON_Utils.c:464-467 | the conditions are sufficient and not necessary: two wrong removals that together give the target |
| JsonPatchEngine.PatchList.Compose | cjson/cJSON_Utils.c:1096-1134 | one patch document for the path is added at the end of the list |
| JsonPatchEngine.PatchList.ComposeBelow | cjson/cJSON_Utils.c:1096-1134 | the same for a member, with its name encoded behind the path |
| JsonPatchEngine.PatchList.Create | cjson/cJSON_Utils.c:1141-1279 | the recursive generator appends exactly the patches of DiffApplies and GeneratedIffDiffers, with the path in front |
| JsonPatchEngine.PatchList.CreateItems | cjson/cJSON_Utils.c:1170-1213 | the loop over two arrays appends the patches of ItemsApply and GeneratedIffDiffers |
| JsonPatchEngine.PatchList.CreateMembers | cjson/cJSON_Utils.c:1215-1274 | the merge join over two sorted lists appends the patches of MembersApply and GeneratedIffDiffers |
| JsonPatchEngine.Generate | cjson/cJSON_Utils.c:1296-1309 | the returned document is the one PatchRoundTrip applies, and empty exactly when NothingGeneratedIff says |
| JsonPatchEngine.FindLastSlash | cjson/cJSON_Utils.c:443-447 | the slash found is the last, and none is reported only if there is none |
| JsonPatchEngine.Document.DetachPath | cjson/cJSON_Utils.c:430-481 | the value at the path is taken out of the tree and returned, or nothing changes |
| JsonPatchEngine.Document.AddValue | cjson/cJSON_Utils.c:959-1036 | the value is put at the path with the status of every failing case |
| JsonPatchEngine.Document.ApplyChange | cjson/cJSON_Utils.c:838-1036 | add, remove and replace, also at the root, with status and the tree left behind on failure |
| JsonPatchEngine.Document.ApplyTransfer | cjson/cJSON_Utils.c:905-1036 | move and copy have the effects of MoveEffect and CopyEffect, with status |
| JsonPatchEngine.Document.ApplyOne | cjson/cJSON_Utils.c:807-1036 | one patch document of any form: the operations as OperationNames assigns them, malformed documents, and test as in TestEffect |
| JsonPatchEngine.Document.ApplyAll | cjson/cJSON_Utils.c:1038-1094 | the loop applies patches until the first failure and returns its status; the tree is the one of PatchRoundTrip |
| JsonMerge.MergeGet | cjson/cJSON_Utils.c:1321-1379 | name by name, what the merged object holds |
| JsonMerge.MergeIsRfc | cjson/cJSON_Utils.c:1321-1379 | merge_patch computes the algorithm of section 2 of RFC 7396, read as a function on maps, for every target and patch with distinct names |
| JsonMergeJoin.JoinFold | cjson/cJSON_Utils.c:1406-1462 | for lists in any order, what each name holds after the generated members are merged one by one: kept, removed, added, replaced by the nested patch, or removed and added in either order |
| JsonMergeJoin.AscendingMeet | cjson/cJSON_Utils.c:1416-1462 | when both lists ascend for strcmp, every common name is met in both at once |
| JsonMergeJoin.NothingJoined | cjson/cJSON_Utils.c:1463-1468 | no member is generated if and only if the sorted lists agree name by name and no pair of values asks for a patch |
| JsonMergeRoundTrip.MergeNothing | cjson/cJSON_Utils.c:1321-1379 | merging a tree into nothing gives the tree if and only if it has no null member reached through objects |
| JsonMergeRoundTrip.RestoredIff | cjson/cJSON_Utils.c:1321-1471 | merging the generated patch into a copy of the source, in any member order, gives the target if and only if an explicit condition on the two trees holds; for all trees with distinct names, also when no patch is returned |
| JsonMergeLimits.GuardedRestores | cjson/cJSON_Utils.c:1391-1471 | where the sorted lists ascend for strcmp and comparisons do not depend on case, the condition says that each null member of the target is null in the source already |
| JsonMergeLimits.IgnoredCaseIsLost | cjson/cJSON_Utils.c:1449-1461 | a name whose values are equal only when case is ignored is never restored |
| JsonMergeLimits.LowerGuarded | cjson/cJSON_Utils.c:1391-1471 | names without upper-case letters below the top level meet those guards |
| JsonMergeLimits.MergeRoundTrip | cjson/cJSON_Utils.c:1321-1471 | for such names and targets without nulls the round trip holds, as compare_json sees it |
| JsonMergeLimits.NothingToDoIff | cjson/cJSON_Utils.c:1463-1468 | under the guards no patch is returned if and only if both are objects that are equal up to order |
| JsonMergeLimits.NullMemberIsLost | cjson/cJSON_Utils.c:1321-1471 | a target whose null member the round trip loses |
| JsonMergeLimits.MixedCaseLosesMember | cjson/cJSON_Utils.c:1449-1456 | a case-sensitive call whose patch, merged back, loses a nested member |
| JsonMergeLimits.NoPatchForDifferentTrees | cjson/cJSON_Utils.c:1449-1468 | a case-sensitive call that returns no patch for trees that differ |
| JsonMergeEngine.MergeInto | cjson/cJSON_Utils.c:1321-1379 | the loop with detach, recursion and append computes the merge of MergeIsRfc |
| JsonMergeEngine.GenerateFrom | cjson/cJSON_Utils.c:1391-1471 | the walk over sorted lists, with the comparisons reordering the values below, computes the patch of RestoredIff |
| JsonMergeEngine.GenerateMerge | cjson/cJSON_Utils.c:1391-1471 | the same with a missing source or target |
| JsonTreeRoundTrip.ValueRoundTrip | cjson/cJSON.c:1308-1821 | wherever the text of a value stands, the parser reads the value back, stops right behind it and reports how deep it nests, for any number and string tokens that read back |
| JsonTreeRoundTrip.ArrayRoundTrip | cjson/cJSON.c:1437-1594 | the same for arrays, formatted or not |
| JsonTreeRoundTrip.ObjectRoundTrip | cjson/cJSON.c:1597-1821 | the same for objects, formatted or not |
| JsonTokens.NumberRoundTrip | cjson/cJSON.c:305-608 | a printed number is read back up to its last character and no further |
| JsonTokens.AgainIsClose | cjson/cJSON.c:545-608 | the value read back is close to the printed one by compare_double, whichever precision was chosen |
| JsonTokens.StringRoundTrip | cjson/cJSON.c:769-1017 | every string without NUL is read back from its escaped text |
| JsonTokens.RunIsLongest | cjson/cJSON.c:318-351 | the number token is the longest run of number characters, up to 63 |
| JsonUnicode.Utf8ReadsBack | cjson/cJSON.c:711-760 | a UTF-8 reader made from the byte patterns of section 3 of RFC 3629 reads the bytes of every code point up to 0x10FFFF as that code point, whatever follows |
| JsonUnicode.Utf8IsUnique | cjson/cJSON.c:711-760 | and no other bytes are read as it |
| JsonUnicode.PieceReads | cjson/cJSON.c:815-873 | each way to spell a piece of a string is taken in one step and gives its bytes: a plain character, a two-character escape with '/' among them, four hexadecimal digits of either case outside the surrogates, a surrogate pair |
| JsonUnicode.SpelledStringReads | cjson/cJSON.c:769-895 | a string spelled with any sequence of such pieces is read as their bytes, up to the first NUL |
| JsonUnicode.PieceMeansItsCode | cjson/cJSON.c:648-766 | the bytes of four digits or of a pair read as the code point they spell |
| JsonUnicode.LoneSurrogateRefused | cjson/cJSON.c:658-699 | a surrogate is refused if and only if it is a second half, or no second half follows it at once |
| JsonUnicode.UnknownEscapeRefused | cjson/cJSON.c:824-868 | a backslash is refused if and only if no escape goes on with the character behind it |
| JsonUnicode.BadDigitsReadAsNul | cjson/cJSON.c:611-644 | four characters that are not all hexadecimal digits read as NUL |
| JsonUnicode.PrintedAsChosen | cjson/cJSON.c:925-1016 | the printer escapes quote, backslash and control characters only, the short way where there is one |
| JsonTextRoundTrip.PrintParse | cjson/cJSON.c:1091-1245 | parsing the printed text gives the value with its numbers reread if it nests at most 1000 deep, and fails otherwise |
| JsonTextRoundTrip.PrintParseIdentity | cjson/cJSON.c:1091-1245 | it gives the value itself when the numbers read back exactly |
| JsonGrammar.ReadIff | cjson/cJSON.c:1308-1707 | parse_value reads a value up to an offset if and only if the buffer spells it up to there, with blanks between any two tokens, and it nests at most 1000 deep; for all buffers and any number and string tokens |
| JsonGrammar.BufferIff | cjson/cJSON.c:1091-1168 | a whole buffer gives a value if and only if it spells it after an optional byte order mark and blanks, and, when asked for, ends in blanks and NUL |
| JsonLayout.UnformattedIsDense | cjson/cJSON.c:1535-1821 | unformatted text has no blank outside strings |
| JsonLayout.FormattedIsPretty | cjson/cJSON.c:1535-1821 | formatted text is the unformatted text with blanks put in by a rule on neighbouring characters and open brackets: every member and every closing brace on its own line behind as many tabs as it is deep, a tab after a colon, a space after the comma of an array |
| JsonDecoder.FindQuote | cjson/cJSON.c:782-804 | the scan finds the closing quote that belongs to the string, and counts the skipped bytes |
| JsonDecoder.ParseHex4 | cjson/cJSON.c:611-644 | the loop computes the value of four hexadecimal digits, and 0 if one is not |
| JsonDecoder.WriteUtf8 | cjson/cJSON.c:711-760 | the backwards loop writes the bytes that Utf8ReadsBack reads as the code point, at the given place |
| JsonDecoder.WriteUtf16 | cjson/cJSON.c:648-766 | an escape or a surrogate pair is decoded as in PieceReads and written, or refused as in LoneSurrogateRefused |
| JsonDecoder.StepFits | cjson/cJSON.c:769-895 | no decoding step writes past the bytes that were reserved |
| JsonDecoder.DecodedFits | cjson/cJSON.c:769-895 | the decoded string never exceeds the allocation computed from the scan, for any input |
| JsonDecoder.DecodeIsLocal | cjson/cJSON.c:769-895 | decoding depends on nothing behind the closing quote |
| JsonDecoder.WriteDecoded | cjson/cJSON.c:815-873 | the loop fills the allocated array with the decoded string and a terminator, in bounds, and fails on bad escapes only |
| JsonDecoder.DecodeString | cjson/cJSON.c:769-895 | scan, allocation and decoding together read the string token of StringRoundTrip and SpelledStringReads |
| JsonParser.ParseBuffer.SkipBlanks | cjson/cJSON.c:1034-1057 | the loop stops at the first byte that is not blank, or at the last byte |
| JsonParser.ParseBuffer.ReadNumberToken | cjson/cJSON.c:305-379 | the copy loop and the conversion read the number token of NumberRoundTrip |
| JsonParser.ParseBuffer.ReadStringToken | cjson/cJSON.c:769-895 | the string token is read and the position moves behind it |
| JsonParser.ParseBuffer.ReadValue | cjson/cJSON.c:1308-1360 | the recursive parser follows the grammar functions of ValueRoundTrip on all inputs, failures included, and restores the depth |
| JsonParser.ParseBuffer.ReadArray | cjson/cJSON.c:1437-1532 | the same for arrays, with the nesting limit |
| JsonParser.ParseBuffer.ReadItems | cjson/cJSON.c:1469-1509 | the loop reads items until there is no comma |
| JsonParser.ParseBuffer.ReadObject | cjson/cJSON.c:1597-1707 | the same for objects, with the nesting limit |
| JsonParser.ParseBuffer.ReadMembers | cjson/cJSON.c:1627-1685 | the loop reads members until there is no comma |
| JsonParser.ParseWithLength | cjson/cJSON.c:1091-1168 | parsing a buffer, with byte order mark and optional check of what follows |
| JsonParser.ParseText | cjson/cJSON.c:1075-1088 | parsing C text is the parser of PrintParse |
| JsonPrinter.EscapedLength | cjson/cJSON.c:925-949 | the first pass measures exactly what the second writes |
| JsonPrinter.PrintBuffer.Ensure | cjson/cJSON.c:439-522 | room is granted if and only if the needed bytes and one more fit the buffer or what it may grow to; growing keeps what was written |
| JsonPrinter.PrintBuffer.UpdateOffset | cjson/cJSON.c:525-535 | the position moves to the end of the text just written |
| JsonPrinter.PrintBuffer.PrintNumber | cjson/cJSON.c:545-608 | the number is appended, or refused for want of room or for being too long |
| JsonPrinter.PrintBuffer.PrintString | cjson/cJSON.c:898-1023 | the quoted string is appended if it fits |
| JsonPrinter.PrintBuffer.StoreQuoted | cjson/cJSON.c:951-1016 | both ways of writing a string, copied or escaped, give the same text |
| JsonPrinter.PrintBuffer.PrintValue | cjson/cJSON.c:1363-1434 | a value is appended as its text, and this succeeds if and only if two more bytes than the text fit |
| JsonPrinter.PrintBuffer.PrintArray | cjson/cJSON.c:1535-1594 | the same for arrays, formatted or not |
| JsonPrinter.PrintBuffer.PrintObject | cjson/cJSON.c:1710-1821 | the same for objects, with indentation by depth |
| JsonPrinter.PrintBuffer.PrintMember | cjson/cJSON.c:1739-1798 | one line of an object, piece by piece |
| JsonPrinter.PrintPreallocated | cjson/cJSON.c:1288-1305 | printing into a fixed buffer succeeds if and only if it has two more bytes than the text, and then leaves the text and a terminator |
| JsonPrinter.PrintBuffered | cjson/cJSON.c:1258-1286 | printing with any start size gives the text, up to the integer limit |
| JsonPrinter.Print | cjson/cJSON.c:1183-1245 | printing gives the text of PrintParse |
| HashTable.MaskIsRemainder | deps/uthash.h:438-441 | masking with a power of two less one is the remainder |
| HashTable.InOwnBucket | deps/uthash.h:438-441 | an element is in the table if and only if it is in the chain its hash value selects |
| HashTable.FindAgrees | deps/uthash.h:164-181 | lookup returns an element with the key if and only if the table holds one, for any hash function |
| HashTable.PlaceAllKeeps | deps/uthash.h:939-960 | distributing elements over buckets loses and doubles none, and counts those past the ideal chain length |
| HashTable.IdealIsCeiling | deps/uthash.h:936-938 | the shift and mask compute the number of elements per bucket, rounded up |
| HashTable.ExpandKeeps | deps/uthash.h:923-973 | doubling the buckets keeps all elements, each in its bucket, with exact counters |
| HashTable.AddKeeps | deps/uthash.h:404-423 | adding keeps every element in its own bucket, the counters exact and elements distinct, also when it triggers expansion |
| HashTable.DeleteKeeps | deps/uthash.h:458-485 | deleting keeps it too and takes out that element only |
| HashTable.StepKeeps | deps/uthash.h:523-570 | each operation keeps that consistency, the part of HASH_FSCK that is about counts and membership, and does to the list what the operation says |
| HashTable.CountsAreFlat | deps/uthash.h:523-570 | the bucket counters add up to the number of elements |
| HashTable.IndexAgreesWithList | deps/uthash.h:523-570 | after any run of additions and deletions, lookup by hash and a search of the plain list agree for every key, and the counters sum to its length |
| HashGrowth.CountIsSharing | deps/uthash.h:438-441 | the count of a bucket is the number of elements of the list whose hash value leaves its number as remainder |
| HashGrowth.BucketsAfterAdd | deps/uthash.h:857-875 | an addition doubles the buckets if and only if expansion is on and the elements sharing the new one's bucket reach ten times its multiplier plus one; the first element makes 32 |
| HashGrowth.MultipliersAfterAdd | deps/uthash.h:942-950 | an expansion gives each bucket its multiplier in closed form, from its length and the ideal length; other additions change none |
| HashGrowth.SwitchedOffIff | deps/uthash.h:964-969 | expansion is switched off if and only if two expansions in a row leave more than half of the elements beyond the ideal length, and stays off |
| HashGrowth.DeleteKeepsGrowth | deps/uthash.h:458-485 | a deletion changes none of this, except that the table goes with the last element |
| HashEngine.HashIndex.FindElement | deps/uthash.h:835-854 | the loop over one chain is the lookup of FindAgrees |
| HashEngine.HashIndex.ExpandBuckets | deps/uthash.h:923-973 | the nested loops compute the expansion of ExpandKeeps |
| HashEngine.HashIndex.AddElement | deps/uthash.h:404-423 | adding, making the table first if needed, is the addition of AddKeeps |
| HashEngine.HashIndex.DeleteElement | deps/uthash.h:458-485 | deleting, dropping the table with the last element, is the deletion of DeleteKeeps |
| LinkedList.List.Append | cjson/cJSON.c:1952-1983 | the node is linked at the end; next, prev and the tail link of the head stay consistent |
| LinkedList.List.AppendAny | deps/utlist.h:639-651 | the same for DL_APPEND2, which also resets the node's own link |
| LinkedList.List.ItemAt | cjson/cJSON.c:1847-1864 | the walk returns the node at the index, or null past the end |
| LinkedList.List.Detach | cjson/cJSON.c:2183-2217 | the node is unlinked wherever it is, the others keep their order, and its own links are cleared |
| LinkedList.List.Delete | deps/utlist.h:706-723 | the same for DL_DELETE2 |
| LinkedList.List.DetachAt | cjson/cJSON_Utils.c:393-427 | the node at the index is unlinked and returned, or null and no change |
| LinkedList.List.InsertAt | cjson/cJSON_Utils.c:693-728 | the node is linked before the one at the index, or at the end, or refused past it |
| LinkedList.List.Replace | cjson/cJSON.c:2288-2335 | one node takes the other's place with all links, also at head and tail |
| ListSort.MergeLists | cjson/cJSON_Utils.c:534-592 | relinking two sorted lists gives one consistent list of the same nodes with the merged members |
| ListSort.Middle | cjson/cJSON_Utils.c:509-521 | the fast and slow pointers stop behind the first half, rounded up |
| ListSort.InOrder | cjson/cJSON_Utils.c:498-507 | the first loop finds out whether names strictly ascend already |
| ListSort.Cut | cjson/cJSON_Utils.c:522-527 | cutting one link leaves two consistent lists without a common node |
| ListSort.SortList | cjson/cJSON_Utils.c:484-593 | the recursive sort relinks the same nodes into the order of SortSorted, with next and prev consistent inside; the prev of the head is what it was if the head has stayed the head, and null otherwise |
| ListEnds.FirstStaysIff | cjson/cJSON_Utils.c:484-593 | the first node stays first if and only if its name comes before every other, so a node with an equal name moves it |
| ListEnds.LastStaysIff | cjson/cJSON_Utils.c:484-593 | the last node stays last if and only if every other name comes before its own |
| ListAppend.SortObject | cjson/cJSON_Utils.c:595-602 | the sorted list is a whole list, with the tail in the head's prev, if and only if the first node had the smallest name and the last the largest |
| ListAppend.AddItem | cjson/cJSON.c:1952-1983 | what an append does to a list with any head's prev: null there leaves the list as it is, an inner node cuts off what is behind it |
| ListAppend.SortThenAdd | cjson/cJSON_Utils.c:595-602 | an append after sort_object puts the item behind the sorted nodes if and only if the first node had the smallest name and the last the largest; otherwise the item, or the nodes behind the former tail, are lost |
| ListAppend.Duplicate | cjson/cJSON.c:2740-2767 | a copy of any list, sorted or not, is a whole list with the same members |
| ListAppend.AdditionIsLost | cjson/cJSON_Utils.c:1219-1220 | generating patches for a concrete tree and applying them to that tree itself, not to a copy, loses the one addition |
| DlSort.PassKeeps | deps/utlist.h:175-233 | a pass of the bottom-up sort gives a permutation |
| DlSort.PassSorts | deps/utlist.h:175-233 | a pass doubles the length of the sorted runs |
| DlSort.PassStable | deps/utlist.h:175-233 | a pass keeps the order of equal elements |
| DlSort.SortIsStable | deps/utlist.h:175-233 | the sort gives a sorted permutation in which equal elements keep their order, for any total preorder |
| DlSortEngine.MergeRuns | deps/utlist.h:200-222 | the inner loop, with its counters, merges two runs by relinking |
| DlSortEngine.SortPass | deps/utlist.h:187-229 | one pass over the linked list is the pass of PassSorts, and its merge count tells when to stop |
| DlSortEngine.Sort | deps/utlist.h:175-233 | the whole loop relinks the nodes into the order of SortIsStable, with the head's tail link in place |
| VarInt.EncodeLength | lib/packet_datatypes.c:237-257 | a number fits k bytes if and only if it is below 128 to the power k |
| VarInt.BytesIsLength | lib/packet_datatypes.c:260-273 | the size table agrees with the encoder |
| VarInt.VarintRoundTrip | lib/packet_datatypes.c:204-273 | every number up to 268435455 is read back from its bytes, whatever follows |
| VarInt.VarintCanonical | lib/packet_datatypes.c:204-234 | what the reader accepts is the shortest encoding and nothing else (section 1.5.5 of MQTT 5.0) |
| VarInt.Packet.WriteVarint | lib/packet_datatypes.c:237-257 | the loop appends the encoding into exactly the room the size table asks for, and fails if and only if the number is too large |
| VarInt.Packet.ReadVarint | lib/packet_datatypes.c:204-234 | the loop with its multiplier decodes the bytes at the position, which moves past every byte looked at, also on malformed input |

## Left out

- Sockets, TLS, DNS lookup, the event loops, keepalive, logging and the command line clients: input and output around the modelled core.
- The broker branches under WITH_BROKER: not part of the client library.
- Threads and mutexes: each handler or call is one atomic step, and runs interleave them in any order.
- Packet parsing before a handler acts (truncated packets, flags, an unexpected client identifier, properties other than a Receive Maximum of 0): its errors occur before any message is touched, except that handle__pubackcomp has then given quota back already.
- Failures of single sends on a live socket: in the model sending fails without a socket, and for PUBCOMP by a parameter of the step.
- Reconnect's dimq_cs_disconnecting state, topic aliases, wills, SUBSCRIBE and UNSUBSCRIBE.
- Allocation failure, custom allocation hooks, freeing of memory, and size_t wrap-around.
- References, constant keys and raw items of cJSON, cJSON_Minify, and all of cJSON_Duplicate but its loop over the children.
- Floating point: numbers are reals; formatting with 15 and 17 digits, strtod and the decimal point of the locale are parameters, assumed to read back what 17 digits write; NaN and infinity have no value.
- The error position a failed parse records.
- JsonParser.ParseWithLength: a buffer that is not terminated and ends right after the comma of an object, where the code looks one byte too far, stops at its end in the model.
- Case-insensitive generation of patches: create_patches is modelled with case-sensitive comparison.
- The move operation with a "from" that is not a string, where the code reads through a null pointer: the model reports status 5.
- The hash function of uthash is any function; its Bloom filter, HASH_SORT and HASH_SELECT, and the wrap-around of 32-bit counters are not modelled.
- HashEngine.HashIndex.AddElement: the chain and the application list are sequences, so the link part of HASH_FSCK has no counterpart; linked lists are modelled and proved in LinkedList.
- HashEngine.HashIndex.DeleteElement: the same, unlinking is the removal from two sequences.
- HashEngine.HashIndex.ExpandBuckets: the same, relinking is the distribution of sequences.
- HashTable.AddKeeps: about counts, placement and membership, not links, for the same reason.
- HashTable.DeleteKeeps: about counts, placement and membership, not links, for the same reason.
- HashTable.StepKeeps: about counts, placement and membership, not links, for the same reason.
- JsonPatchTheorems.PatchRoundTrip: its conditions are sufficient only, because wrong removals can cancel out (WrongRemovalsCancel); the exact conditions are given operation by operation.
- JsonPatchEngine.PatchList.Create: does not return the two trees as it leaves them, sorted in place; ListAppend says what the sorting does to the lists, ReorderedRoundTrip that the new order does not matter to copies.
- JsonPatchEngine.Generate: the same.
- JsonMergeEngine.GenerateFrom: the same, with RestoredIff about copies in any order.
- JsonPatchEngine.CompareTrees: returns the sorted trees as values; what the sort does to the head's prev is in ListAppend.
- JsonPatchEngine.Document.ApplyOne: after a test operation the document has the new order but whole lists, whereas in the code a later addition can be lost as in AdditionIsLost.
- JsonPatchEngine.Document.ApplyAll: the same, for a test followed by an addition; generated patches contain no tests.
