# FlowBlaze: the packet engine, its compile chain and its JSON library

FlowBlaze runs extended finite state machines on packets. A program is written as nested
state, event and `if` blocks, compiled to table rows, carried as JSON, and run either by a
software engine (`SW-FB`) or by hardware whose ternary memory the NetFPGA loader fills.
This project models those parts in Dafny and proves what they promise.

**The engine.** `Efsm` says what one packet does to one flow: evaluate the conditions, take the
first row that fits, run its actions, move on. `TableIndex` builds the bucketed row index in
place and looks rows up through it; `Engine.XfsmTable` is the table itself, with its instance
pool, its hash of flow keys and its cache, and its `ProcessStage` does exactly what the
specification says, with or without the cache; `Pipeline` is the loop over the stages.
`Packet`, `Headers` and `FlowKey` cover header fields and flow keys on the packet bytes, and
`Frames` says where in a frame they are, in the terms of the protocols.
`Runs` is about whole traces: a program that writes no global register treats every flow as if
it were alone. `Independence` has the same for programs that read a global register only after
writing it in the same row, and for the policer, whose flows share two of them. `Capacity` says
which runs the engine completes, and `TableRuns` drives the table itself over a trace of received
frames. `RegisterArithmetic` says what updates compute and that registers stay 64-bit numbers in
every run. `Policer`, `PortKnocking`, `LoadBalancer` and `Elephant` are programs of the repository
with theorems about all their runs; `ProgramRuns` has them on the table, about the bytes of frames.

**The compile chain.** `XlBlocks` has the nested blocks and the rows they stand for;
`TableRowFactory` is the factory that flattens them, with rows shared between its lists.
`Flattening` gives the blocks a meaning of their own and says, for every block, exactly when the
table means the same. `Programs` shows that the tables of the four programs are what their
blocks compile to. `ConditionFactory` interns conditions, and `ConditionNumbers` shows that it
gives those of the four programs the numbers that their tables have; `Tcam` turns rows into value
and mask words and says which keys they match, and `TcamEntries` says exactly when that is what the
row says, also for an entry that is written with the header fields of another stage.

**JSON.** `JsonText` says how a value is spelled, `JsonGrammar` how text is read. `JsonPrinter`,
`JsonParser`, `JsonMinify` and `JsonChildren` are the library's algorithms on buffers and linked
nodes, each proved against those functions; `JsonRoundTrip`, `JsonStrings` and `JsonMinify`
relate the two directions. `JsonTrees`, `JsonStrings` and `JsonNumbers` describe exactly which texts
are accepted and for what, `JsonComments` what the minifier keeps, and `PrintedLayout` what printed
text looks like (RFC 8259 sections 3 to 7, RFC 3629 section 3, RFC 2781 section 2).

Conventions: bytes are integers below 256; a C string is a byte sequence that ends with its NUL;
a register is a 64-bit two's complement number, so the engine's sums wrap; a result of `None`
from `Efsm.Step`, `Efsm.Advance` or `Pipeline.PassThrough` means that the C program would stop
(a division trap, or no room for another flow).

## What is exact about the results

- Printing then parsing gives the value back for every printable value, with one limit that is
  stated as an equivalence: the parse succeeds exactly when the value nests at most 1000 deep,
  and the value read is the one printed exactly when no string holds a NUL.
- Where string literals depart from RFC 8259 section 7 is stated as two equivalences. A literal by
  its grammar is accepted if and only if every escape of a surrogate is part of a pair, so `"\uDEAD"`
  is one that is rejected. And a text is such a literal with paired surrogates if and only if the
  code accepts it, every `\u` in it that has six bytes in front of the closing quote is followed by
  four hexadecimal digits, and it holds no raw control byte. Other characters after `\u` are read as
  U+0000, and only a literal that ends too early, or the second half of a pair, is rejected for them.
  All literals that the code accepts, and what it reads them as, are described as well. (Whether raw
  bytes are UTF-8 is not looked at, neither there nor here.)
- Values are accepted exactly where the text has names, numbers and strings, brackets with commas
  between elements, and braces with a colon in every member, at most 1000 deep, with any bytes up to
  32 between them. Numbers are what the C library takes for one at the beginning of at most 63 number
  bytes: every number of RFC 8259 section 6, and also leading zeros and a point without digits on one
  side.
- The minifier keeps literals and all other bytes that are neither white space nor in a comment. For
  it, the three bytes slash, star, slash are a whole comment.
- Integers of at most fifteen digits are read as themselves. All other numbers, and minus zero,
  are kept as they are spelled, since their value is a double.
- The header file asks for five spare bytes when printing into the caller's storage
  (`SW-FB/cJSON.h:152`); the code needs two, one of them for the terminator.
- The instance pool is initialised before the default state is known (`SW-FB/xfsm.c:212-213` and
  `SW-FB/xfsm.c:243`), so a fresh table is well formed if and only if its initial state is 0.
- The count of instances is never given back: a table stops accepting flows after 999,999
  insertions, however many were destroyed since. A program that neither divides nor destroys flows is
  run to the end if and only if the trace has packets of at most 999,999 flows.
- Flattening keeps the meaning of a state block, on an event and for given outcomes of the
  conditions, if and only if the actions that the blocks choose and those that the table chooses
  have the same effects, next state and next stage. Actions are idle when they stay in the same state
  of the same stage without doing anything; rows of idle actions are deleted. The cases are
  - a state without event blocks, and an event with one block an if of which holds: preserved unless
    the chosen actions are idle;
  - several blocks for an event, an if of one of which holds: their actions are merged. Unless the
    merged actions are idle, preserved exactly when those of the other blocks make no difference; if
    they are idle, exactly when the next choice of the table that is not idle only leads to the same
    stage;
  - a block without an `if` where no if of its event holds: its row lacks the actions of the state and
    is filed under the event that was read last. If its event is not that one, or has an if as well
    and nothing else was filed, its actions are lost, which goes unnoticed only if they add nothing;
    otherwise the first filed actions that are not idle must have the reaction of the blocks;
  - an event on which the blocks say nothing: preserved when no row that is not idle is left over.
- The elephant detector compares before it sets its threshold, which is 0 at first. So it marks a flow
  from its 152nd packet on, but the flow of the very first packet from its second one on.
- The software engine reads no events from a table, so the rows for time-outs, such as those of
  the policer's initial state, are rows for packets as well.
- A ternary entry matches exactly the keys that satisfy its row if and only if, for every header
  field that the row uses, the constants as they are encoded, laid over each other, make every exact
  condition on the field come out as wanted, and one of them is wanted true or the row leaves the
  field no other value, for which it needs at least 255 conditions. A constant that its field cannot
  hold is encoded by its low bytes, and one for a field of three bytes as 0. With one constant per
  field, which the field can hold, this means that no exact condition is wanted false.
- An entry of a later stage, for which header fields are looked up in the list of stage 0, is
  right if and only if both lists make it ask the same of every slot; it is enough that the
  fields it uses are at the same positions in both.
- Conditions are interned under an equality that ignores the class of a register, so a condition
  on a global register can be given the number of one on a local register.

## Model

| member | source | states |
|---|---|---|
| Efsm.EvaluateAll | SW-FB/xfsm.c:509-513 | every condition gets the result it has for the registers and the packet, in order |
| Efsm.Comparisons | SW-FB/xfsm.c:423-507 | the six comparisons in terms of each other and of the sign of a difference |
| Efsm.MissingFieldIsZero | SW-FB/xfsm.c:423-507 | a condition on a missing field comes out as it would for zero |
| Efsm.FitsMeans | SW-FB/xfsm.c:385-405 | a row fits exactly when all conditions that it wants true hold and none that it wants false does |
| Efsm.FirstMatchIsFirst | SW-FB/xfsm.c:364-415 | what is found is the first row for the state whose results all fit, and nothing exactly when there is no such row or no condition |
| Efsm.ExecuteInTurn | SW-FB/xfsm.c:570-708 | running two lists of actions after each other is running the second on what the first wrote; a trap stops all that follow |
| Efsm.ExecuteDestroys | SW-FB/xfsm.c:701-705 | actions mark the flow to be destroyed exactly when one of them says so |
| Efsm.Transition | SW-FB/flowblaze.c:219-245 | without a matching row the flow stays as it is; a row that destroys takes it away; any other leads to its next state and stage; other flows stay |
| Packet.SetGet | SW-FB/xfsm.c:665-700 | a field that is set reads back modulo its width and every other field of the packet reads as before |
| Packet.IdIsPlace | SW-FB/xfsm.h:38-76 | the number of every field is its place in the enumeration |
| Packet.BigEndianInverse | SW-FB/pkt-parser.c:52-60 | reading in network order inverts writing in network order, modulo the width |
| Packet.WrapMod | SW-FB/pkt-parser.c:181-184 | a time stamp read as a signed register wraps like the unsigned one it was stored as |
| Frames.FieldsOfFrame | SW-FB/pkt-parser.c:79-139 | of a frame put together from its parts, every field reads as its part in network order, the ports for their own transport only |
| Frames.SetPart | SW-FB/xfsm.c:665-700 | setting a field puts other bytes in the place of its part and changes nothing else in the frame |
| Frames.NetworkOrder | SW-FB/xfsm.c:672-685 | these bytes stand for the value modulo the width of the field |
| Headers.PacketFields.ParsePktHeader | SW-FB/pkt-parser.c:62-172 | after parsing, the engine sees the fields of this packet at their places |
| Headers.PacketFields.GetHdrValue | SW-FB/pkt-parser.c:174-204 | a present field yields its number in host order, a missing one nothing |
| Headers.PacketFields.SetField | SW-FB/xfsm.c:665-700 | overwriting a field in the buffer changes the packet exactly as setting that field does; a missing field changes nothing |
| Headers.PacketFields.Copy | SW-FB/xfsm.c:691-692 | the low bytes of the host-order value land in the packet, everything around them stays |
| Headers.StoredBytes | SW-FB/xfsm.c:672-685 | swapping and copying the least significant byte first stores the big-endian form of the value |
| FlowKey.CanonicalSorts | SW-FB/xfsm.c:712-726 | the covered pairs come out sorted, each with its own two words, and all later words stay |
| FlowKey.CanonicalIdentifies | SW-FB/xfsm.c:712-726 | canonicalisation is idempotent, and two keys agree after it if and only if they agree up to swapping within covered pairs |
| FlowKey.Biflow | SW-FB/xfsm.c:712-726 | the loop on the key buffer computes the canonical key |
| FlowKey.KeyExtract | SW-FB/xfsm.c:729-747 | the key buffer gets the key of the packet given what the previous packet left in it |
| FlowKey.ExtractedWord | SW-FB/xfsm.c:733-740 | word i of the key is key field i modulo 2^32, or the high half of the field before when it is missing, or what it was |
| FlowKey.ExtractedKey | SW-FB/xfsm.c:729-740 | the key of a packet with all key fields is their values in order and then zeros |
| FlowKey.SameKeyExactly | SW-FB/xfsm.c:712-747 | two packets have the same key if and only if their key fields agree up to swapping within the covered pairs |
| FlowKey.ExtractForgets | SW-FB/xfsm.c:733-740 | when all key fields are present, nothing of the previous key survives in the extracted words |
| FlowKey.KeyOfPacket | SW-FB/xfsm.c:729-747 | the key depends on the packet alone when its key fields are present |
| TableIndex.StatesComplete | SW-FB/xfsm.c:132-145 | every state with rows has a node, and no state has two |
| TableIndex.BucketRefines | SW-FB/xfsm.c:380-407 | scanning the bucket of a state finds the first matching row of the whole table |
| TableIndex.IndexRefines | SW-FB/xfsm.c:364-415 | if all states fit the hash, the index finds the first row of the table for the state whose results all fit, and nothing exactly when there is none |
| TableIndex.KeyList.SearchKey | SW-FB/xfsm.c:30-47 | found if and only if a node has the state |
| TableIndex.KeyList.InsertKey | SW-FB/xfsm.c:49-73 | a new node at the end; state 255 overwrites the key of the first node instead |
| TableIndex.KeyList.InsertEntry | SW-FB/xfsm.c:75-92 | the row number is added to the first node for the state; fails exactly when there is none |
| TableIndex.KeyList.Distribute | SW-FB/xfsm.c:133-145 | one more row is distributed: every node lists the rows of its state in order |
| TableIndex.Index.constructor | SW-FB/xfsm.c:132-194 | the hash leads every indexed state to copies of exactly its rows |
| TableIndex.Index.DistributeAll | SW-FB/xfsm.c:132-145 | the nodes are the states of the table with all their rows |
| TableIndex.Index.MakeBucket | SW-FB/xfsm.c:174-178 | the bucket has copies of the rows a node lists, in order |
| TableIndex.Index.EnterNode | SW-FB/xfsm.c:180-189 | one more state leads to its bucket and the others still do |
| TableIndex.Index.EnterAll | SW-FB/xfsm.c:169-194 | states are entered until the hash is full |
| TableIndex.Index.Lookup | SW-FB/xfsm.c:364-415 | the lookup returns the first row of the table that fits, or nothing exactly when there is none, if all states fit the hash; otherwise it does so for the indexed states |
| TableIndex.Index.RowFits | SW-FB/xfsm.c:385-405 | the scan over the results succeeds if and only if there is a condition and all results fit |
| Engine.NewPool | SW-FB/xfsm.c:212-213 | a new pool is well formed if and only if the initial state is 0 |
| Engine.LiveSlots | SW-FB/xfsm.c:301-303 | as long as there are fewer keys than slots some slot is free |
| Engine.Claim | SW-FB/xfsm.c:302-308 | giving a free slot to a new key keeps keys and slots one to one and adds a fresh flow |
| Engine.Release | SW-FB/xfsm.c:287-293 | taking a key out and blanking its slot keeps the pool well formed and removes only that flow |
| Engine.Rewrite | SW-FB/xfsm.c:526-564 | writing a live slot changes its flow and no other |
| Engine.XfsmTable.constructor | SW-FB/xfsm.c:97-258 | a created table is indexed, has an empty cache, and is a fresh machine if and only if the initial state is 0 |
| Engine.XfsmTable.InitInstance | SW-FB/xfsm.c:18-28 | the slot is blank in the default state and all others stay |
| Engine.XfsmTable.InsertInstance | SW-FB/xfsm.c:297-316 | fails exactly at 999,999 insertions; otherwise a fresh flow under the key and the count one higher |
| Engine.XfsmTable.LookupInstance | SW-FB/xfsm.c:318-333 | the flow exists afterwards, unchanged if it did before and fresh otherwise |
| Engine.XfsmTable.DestroyInstance | SW-FB/xfsm.c:283-295 | the key is gone, its slot is blank, the count is as before |
| Engine.XfsmTable.EvaluateCondition | SW-FB/xfsm.c:423-507 | the result of a condition for the registers and the packet |
| Engine.XfsmTable.EvaluateConditions | SW-FB/xfsm.c:509-513 | the results of all conditions are stored and nothing else changes |
| Engine.XfsmTable.LoadOperand | SW-FB/xfsm.c:573-638 | an operand is loaded, or keeps the value it had for the previous action |
| Engine.XfsmTable.UpdateRegister | SW-FB/xfsm.c:524-564 | the output register gets the result; fails exactly when the division traps |
| Engine.XfsmTable.PerformAction | SW-FB/xfsm.c:642-707 | one action on the pool, the globals and the packet |
| Engine.XfsmTable.ExecuteActions | SW-FB/xfsm.c:566-710 | all actions of a row in order, on the slot of the flow alone |
| Engine.XfsmTable.CacheInsert | SW-FB/xfsm.c:349-362 | the cache still holds only what a lookup would return |
| Engine.XfsmTable.FindMatch | SW-FB/flowblaze.c:219-237 | with or without the cache, the first matching row for the state and the results |
| Engine.XfsmTable.Settle | SW-FB/flowblaze.c:240-245 | the flow is destroyed or moved to the next state and stage |
| Engine.XfsmTable.ApplyRow | SW-FB/flowblaze.c:238-245 | the actions of a row, then its transition or the end of the flow |
| Engine.XfsmTable.Prepare | SW-FB/flowblaze.c:209-218 | the instance is found or created and its conditions are evaluated before any action |
| Engine.XfsmTable.Dispatch | SW-FB/flowblaze.c:219-245 | the packet step of the flow, and no other flow changes |
| Engine.XfsmTable.ProcessStage | SW-FB/flowblaze.c:206-246 | the table, its pool and its cache stay valid and hold what the specification of the packet step says, whether or not there is a cache |
| TableRuns.ReceiveFrame | SW-FB/flowblaze.c:192-246 | a received frame is parsed, gets its key and goes through the table as the specification of the packet step says |
| TableRuns.RunTrace | SW-FB/flowblaze.c:192-252 | over a whole trace of frames, with or without the cache, the table holds and sends what the run of the specification says, and the frames leave with the bytes that it says |
| ProgramRuns.RunPolicer | UseCases/traffic_policer.xl:5-46 | on a fresh table, whatever frames arrive: exactly which frames of a source address are sent on, by their times alone; any n of them between t1 and tn satisfy (n - 2) * 64 < (tn - t1) + 65440; they leave as they came; the run goes through exactly when there are fewer than a million source addresses |
| ProgramRuns.RunFirewall | UseCases/port_knocking_firewall.xl:3-49 | on a fresh table, whatever frames arrive, those sent on are exactly the ones to TCP port 22 whose source address has knocked in order; frames leave as they came |
| ProgramRuns.RunElephant | UseCases/elephant.xl:5-36 | on a fresh table, whatever frames arrive, all are sent on; exactly the later frames of a detected pair of addresses leave with type of service 150, and no other byte changes |
| ProgramRuns.AddressIsKey | SW-FB/xfsm.c:729-747 | the key of a frame is made of its source address, or of both addresses, as they stand in it |
| ProgramRuns.FlowsAreAddresses | SW-FB/flowblaze.c:206-218 | a trace has as many flows as addresses |
| Pipeline.ExecuteKeepsProtocol | SW-FB/xfsm.c:566-710 | actions that do not set the protocol leave the transport of the packet as it is |
| Pipeline.StaysPlaced | SW-FB/flowblaze.c:244-245 | a table leads to a later stage or to none |
| Pipeline.RunStage | SW-FB/flowblaze.c:199-246 | one stage changes its own table and the packet, and all tables stay valid |
| Pipeline.ProcessPacket | SW-FB/flowblaze.c:198-250 | a packet goes through the stages as the specification says, and the loop ends |
| Pipeline.PathIsPassage | SW-FB/flowblaze.c:198-250 | what the pipeline does is what the stages on the way of the packet do, each of which is the one that the verdict before it names |
| Pipeline.PassageHasPath | SW-FB/flowblaze.c:198-250 | every packet that passes has such a way |
| RegisterArithmetic.WrappedResults | SW-FB/xfsm.c:531-539 | sums, differences and products are right modulo 2^64 |
| RegisterArithmetic.Divided | SW-FB/xfsm.c:540-550 | quotient and remainder give the dividend back; the remainder is smaller than the divisor and has the sign of the dividend |
| RegisterArithmetic.DivisionTraps | SW-FB/xfsm.c:540-550 | a division traps if and only if the least number is divided by -1, a remainder also for a zero divisor; dividing by zero keeps the dividend |
| RegisterArithmetic.Extremes | SW-FB/xfsm.c:551-556 | the greater and the smaller of the operands |
| RegisterArithmetic.ExecuteStays | SW-FB/xfsm.c:570-708 | whatever a row does, all registers and loaded operands remain 64-bit numbers |
| RegisterArithmetic.RegistersStay64 | SW-FB/flowblaze.c:192-252 | in every run, local and global registers remain 64-bit numbers, whatever the rows, if send ports are below 2^63 |
| Runs.KeysAreTheirOwn | SW-FB/flowblaze.c:206-209 | a run that reuses the key buffer is the run in which every packet has its own key, when key fields are present |
| Runs.ExecuteKeepsGlobals | SW-FB/xfsm.c:560-563 | actions that only write local registers keep the globals |
| Runs.OwnPacket | SW-FB/flowblaze.c:206-246 | a packet does the same to its flow alone as among others |
| Runs.OtherPacket | SW-FB/flowblaze.c:206-246 | a packet of another flow leaves a flow alone |
| Runs.FlowProjection | SW-FB/flowblaze.c:192-252 | from agreeing tables, a flow and its outputs are the same in the full trace and in its own packets |
| Runs.FlowsAreIndependent | SW-FB/flowblaze.c:192-252 | from a fresh table, for every program that writes no global register, state, registers and outputs of a flow do not depend on other flows |
| Runs.RunPrefix | SW-FB/flowblaze.c:192-252 | what a packet of a run did is what it does to the table that the packets before it lead to |
| Independence.ExecuteAgrees | SW-FB/xfsm.c:570-708 | actions that read only globals that are known, or written before in the same row, do the same whatever the other globals |
| Independence.FlowsAreApart | SW-FB/flowblaze.c:192-252 | from a fresh table, for every program that reads no global before writing it in the same row, state, registers and outputs of a flow do not depend on other flows |
| Independence.PolicerFlowsAreApart | UseCases/traffic_policer.xl:5-45 | the policer treats every source as if it were alone, although all of them write and read its two globals |
| Capacity.CompletesExactly | SW-FB/xfsm.c:297-316 | for every program that neither divides nor destroys flows: from a fresh table, a run goes through if and only if the trace has packets of at most 999,999 flows |
| Tables.Assigned | SW-FB/xfsm.c:524-564 | an assignment writes its output register and nothing else |
| Tables.FieldSet | SW-FB/xfsm.c:664-700 | after a set-field action the field reads as the third operand modulo its width, and all other fields, registers, ports and the destroy flag stay |
| Tables.MissingOperands | SW-FB/xfsm.c:573-638 | a missing operand has the value that was loaded for the action before |
| Tables.MissingAfterSend | SW-FB/xfsm.c:650-659 | after sending, a missing second operand is the port |
| Tables.FieldNumberIsLeft | SW-FB/xfsm.c:583-590 | after setting a field, a missing first operand is the number of the field |
| Policer.Starts | UseCases/traffic_policer.xl:15-24 | the first row sets budget and frequency, opens the window around the packet and forwards it |
| Policer.RowOf | UseCases/traffic_policer.xl:26-45 | which row a packet takes for the results of the four conditions |
| Policer.FirstPacket | UseCases/traffic_policer.xl:15-24 | the first packet of a flow is forwarded and the window is [now - BQ, now + frequency] |
| Policer.LaterPacket | UseCases/traffic_policer.xl:26-45 | a later packet is dropped exactly when it comes no later than Tmin; Tmax - Tmin stays BQ + frequency |
| Policer.Forwards | UseCases/traffic_policer.xl:33-43 | a forward keeps the rate bound and puts the window where the forwards so far demand |
| Policer.RunKeeps | UseCases/traffic_policer.xl:15-45 | window, budget and rate bound hold in every reachable state |
| Policer.RateIsBounded | UseCases/traffic_policer.xl:15-45 | in every run any n forwards of a flow from t1 to tn satisfy (n - 2) * frequency < (tn - t1) + BQ |
| Policer.ForwardsExactly | UseCases/traffic_policer.xl:15-45 | in every run a packet is forwarded exactly when it is the first one of its flow or comes behind the time that the earlier forwards of its flow allow |
| Policer.PatientIsServed | UseCases/traffic_policer.xl:26-45 | a packet at least frequency after the last forward of its flow is never dropped |
| Policer.NeverTraps | UseCases/traffic_policer.xl:15-45 | the engine stops on a packet only for lack of room for a new flow |
| Policer.Loads | UseCases/traffic_policer.xl:5-46 | the table can be created |
| PortKnocking.HeardNext | UseCases/port_knocking_firewall.xl:10-40 | hearing a port moves the count of knocks on exactly when it is the next one |
| PortKnocking.OnePacket | UseCases/port_knocking_firewall.xl:10-49 | the next knock moves a source on; port 22 goes out by port 2 once it is allowed; nothing else goes out |
| PortKnocking.StateCountsKnocks | UseCases/port_knocking_firewall.xl:10-49 | in every run the state of a source is the length of the longest prefix of the knocks that is a subsequence of its ports |
| PortKnocking.OpensAfterKnocks | UseCases/port_knocking_firewall.xl:43-49 | a packet leaves by port 2 if and only if it goes to port 22 and its source has knocked on all four ports in order |
| PortKnocking.Loads | UseCases/port_knocking_firewall.xl:3-49 | the table can be created |
| LoadBalancer.OnePacket | UseCases/load_balancer.xl:14-40 | an unbound flow is bound by a packet from port 1 to the server the counter says; bound flows go to their server |
| LoadBalancer.StaysBalanced | UseCases/load_balancer.xl:14-40 | in every run flows on server 2 minus flows on server 1 equals the counter, which is 0 or 1 |
| LoadBalancer.StaysBound | UseCases/load_balancer.xl:32-40 | a bound flow never changes server and all its packets go there |
| LoadBalancer.FlowsShareTheCounter | UseCases/load_balancer.xl:16-29 | flows of this program are not independent: what one flow gets depends on another |
| LoadBalancer.Loads | UseCases/load_balancer.xl:9-40 | the table can be created |
| Elephant.OnePacket | UseCases/elephant.xl:17-36 | one packet counts, detects or is marked, and is always sent on |
| Elephant.MarksElephants | UseCases/elephant.xl:17-36 | in every run a packet is marked exactly when its flow has had 151 packets before it, or one for the flow of the first packet |
| Elephant.MarkIsRead | UseCases/elephant.xl:10 | a marked packet reads 150 as its type of service and all else as it came |
| Elephant.Loads | UseCases/elephant.xl:5-36 | the table can be created |
| XlBlocks.SettledOnce | XL-toolchain/src/main/java/it/uniroma2/netprog/xtrac/compiler/utils/TableRowFactory.java:114-127 | taking the transitions out leaves none behind and changes nothing the second time |
| Flattening.SettleMeans | XL-toolchain/src/main/java/it/uniroma2/netprog/xtrac/compiler/utils/TableRowFactory.java:114-127 | taking the transitions out leaves the effects in order, the last state and the last stage; it fails exactly when a state follows one that leaves |
| Flattening.TableChooses | XL-toolchain/src/main/java/it/uniroma2/netprog/xtrac/compiler/utils/TableRowFactory.java:104-127 | a table without its empty rows does what the first fitting row does that is not idle |
| Flattening.GatheredFits | XL-toolchain/src/main/java/it/uniroma2/netprog/xtrac/compiler/utils/TableRowFactory.java:55-156 | the rows that fit an event and outcomes are the ifs that hold, then rows of events without ifs, then those of the bare state |
| Flattening.FlatteningPreserves | XL-toolchain/src/main/java/it/uniroma2/netprog/xtrac/compiler/utils/TableRowFactory.java:95-156 | for every block, event and outcomes: the compiled table does what the blocks say if and only if both choices have the same effects, next state and next stage |
| Flattening.StateAlone | XL-toolchain/src/main/java/it/uniroma2/netprog/xtrac/compiler/utils/TableRowFactory.java:142-156 | a state without event blocks: unless its actions are idle |
| Flattening.OneBlock | XL-toolchain/src/main/java/it/uniroma2/netprog/xtrac/compiler/utils/TableRowFactory.java:95-156 | an event with one block, an if of which holds: unless its actions are idle |
| Flattening.SeveralBlocks | XL-toolchain/src/main/java/it/uniroma2/netprog/xtrac/compiler/utils/TableRowFactory.java:50-69 | several blocks for an event, one of whose ifs holds: unless the merged actions are idle, exactly when the actions of the other blocks make no difference |
| Flattening.IflessBeforeIfs | XL-toolchain/src/main/java/it/uniroma2/netprog/xtrac/compiler/utils/TableRowFactory.java:50-69 | a block without ifs in front of one whose if holds: unless the merged actions are idle, exactly when all that is merged makes no difference |
| Flattening.IdleMerged | XL-toolchain/src/main/java/it/uniroma2/netprog/xtrac/compiler/utils/TableRowFactory.java:104-112 | merged actions that are idle: exactly when the next choice of the table that is not idle does nothing but lead to the same stage |
| Flattening.IflessUnfiled | XL-toolchain/src/main/java/it/uniroma2/netprog/xtrac/compiler/utils/TableRowFactory.java:129-138 | a block without ifs whose event is not read last, or for which only idle actions are filed: never if the state has an if anywhere, else exactly when its actions add nothing to those of the state |
| Flattening.IflessLast | XL-toolchain/src/main/java/it/uniroma2/netprog/xtrac/compiler/utils/TableRowFactory.java:129-138 | a block without ifs for the event read last: what runs is the first filed list of actions that is not idle; if that is its own, exactly when the actions of the state, which its row lacks, make no difference, otherwise exactly when both have the same reaction |
| Flattening.NothingSaid | XL-toolchain/src/main/java/it/uniroma2/netprog/xtrac/compiler/utils/TableRowFactory.java:129-156 | an event on which the blocks say nothing: exactly when no row that is not idle is left over for it |
| Flattening.AllCases | XL-toolchain/src/main/java/it/uniroma2/netprog/xtrac/compiler/utils/TableRowFactory.java:50-156 | every block, event and outcomes fall under one of these cases |
| Flattening.PlainBlocks | XL-toolchain/src/main/java/it/uniroma2/netprog/xtrac/compiler/utils/TableRowFactory.java:55-156 | one block with ifs per event and never the own stage: one row per if in source order, and always the same behaviour |
| Flattening.BlocksAreMerged | XL-toolchain/src/main/java/it/uniroma2/netprog/xtrac/compiler/utils/TableRowFactory.java:50-53 | a state with two blocks for one event whose table does something else |
| Flattening.FiledUnderLastEvent | XL-toolchain/src/main/java/it/uniroma2/netprog/xtrac/compiler/utils/TableRowFactory.java:129-138 | a state whose time-out actions run on packets, and not on time-outs |
| Flattening.LostBesideIf | XL-toolchain/src/main/java/it/uniroma2/netprog/xtrac/compiler/utils/TableRowFactory.java:129-138 | a state whose actions for every packet are lost when the if of a second block does not hold |
| XlBlocks.GatheredPlain | XL-toolchain/src/main/java/it/uniroma2/netprog/xtrac/compiler/utils/TableRowFactory.java:129-156 | when every event block has an if, no rows are added |
| TableRowFactory.TableRow.constructor | XL-toolchain/src/main/java/it/uniroma2/netprog/xtrac/model/table/TableRow.java:25-32 | a new row is empty and stays in its state |
| TableRowFactory.TableRow.SetNextState | XL-toolchain/src/main/java/it/uniroma2/netprog/xtrac/model/table/TableRow.java:34-40 | fails exactly when the next state was already set to another one |
| TableRowFactory.TableRow.IsEmpty | XL-toolchain/src/main/java/it/uniroma2/netprog/xtrac/model/table/TableRow.java:42-44 | no actions, same state, own stage |
| TableRowFactory.TableRow.ProcessSetNext | XL-toolchain/src/main/java/it/uniroma2/netprog/xtrac/compiler/utils/TableRowFactory.java:115-126 | the transitions of a row move from its actions to its next state and stage |
| TableRowFactory.Factory.CreateNewTableRow | XL-toolchain/src/main/java/it/uniroma2/netprog/xtrac/compiler/utils/TableRowFactory.java:55-69 | a fresh row at the end, filed under its event and its state, and the filing stays consistent |
| TableRowFactory.Factory.AddConditionResult | XL-toolchain/src/main/java/it/uniroma2/netprog/xtrac/compiler/utils/TableRowFactory.java:71-76 | one more condition for the current row only |
| TableRowFactory.Factory.AddActionToCurrentTableRow | XL-toolchain/src/main/java/it/uniroma2/netprog/xtrac/compiler/utils/TableRowFactory.java:78-80 | one more action for the current row only |
| TableRowFactory.Factory.AddActionToStateBlock | XL-toolchain/src/main/java/it/uniroma2/netprog/xtrac/compiler/utils/TableRowFactory.java:83-87 | one more action on the level of the state |
| TableRowFactory.Factory.AddActionToEventBlock | XL-toolchain/src/main/java/it/uniroma2/netprog/xtrac/compiler/utils/TableRowFactory.java:89-93 | one more action on the level of the event |
| TableRowFactory.FinalizeRows | XL-toolchain/src/main/java/it/uniroma2/netprog/xtrac/compiler/utils/TableRowFactory.java:140-144 | every row of a block gets the block's actions in front |
| TableRowFactory.Factory.FinalizeEventRows | XL-toolchain/src/main/java/it/uniroma2/netprog/xtrac/compiler/utils/TableRowFactory.java:129-138 | every open row gets the actions of its event; each event without rows gets one for the current state and event |
| TableRowFactory.Factory.FinalizeStateRows | XL-toolchain/src/main/java/it/uniroma2/netprog/xtrac/compiler/utils/TableRowFactory.java:146-156 | every row of the state gets its actions; a state without rows gets one for every event |
| TableRowFactory.Factory.FinalizeBlocks | XL-toolchain/src/main/java/it/uniroma2/netprog/xtrac/compiler/utils/TableRowFactory.java:96-97 | open rows have state, then event, then own actions; rows of earlier states stay |
| TableRowFactory.Factory.ProcessSetNext | XL-toolchain/src/main/java/it/uniroma2/netprog/xtrac/compiler/utils/TableRowFactory.java:114-127 | transitions are taken out of all rows; fails exactly when some row sets its next state twice |
| TableRowFactory.Factory.DeleteEmptyTableRows | XL-toolchain/src/main/java/it/uniroma2/netprog/xtrac/compiler/utils/TableRowFactory.java:104-112 | exactly the empty rows are dropped, the order is kept |
| TableRowFactory.Factory.FinalizeTableRows | XL-toolchain/src/main/java/it/uniroma2/netprog/xtrac/compiler/utils/TableRowFactory.java:95-102 | the rows of earlier states stay, those of the ending state follow finished, and nothing is left open |
| TableRowFactory.Factory.CompileState | XL-toolchain/src/main/java/it/uniroma2/netprog/xtrac/compilerStateMachine/InStateBlock.java:21-31 | reading a whole state block and ending it appends exactly the rows its blocks stand for; the whole table then does on every event and outcome what the blocks say exactly when their choices agree |
| Programs.PolicerCompiles | UseCases/traffic_policer.xl:14-45 | the blocks of the policer compile and load to exactly its table, with two rows that do nothing |
| Programs.PortKnockingCompiles | UseCases/port_knocking_firewall.xl:10-49 | the five states of the firewall compile and load to exactly its table |
| Programs.LoadBalancerCompiles | UseCases/load_balancer.xl:16-42 | the blocks of the load balancer, without their setField actions, compile and load to exactly its table |
| Programs.ElephantCompiles | UseCases/elephant.xl:17-36 | the two states of the elephant detector compile and load to exactly its table |
| ConditionFactory.SameIsEquivalence | XL-toolchain/src/main/java/it/uniroma2/netprog/xtrac/model/condition/Condition.java:18-31 | the equality of conditions is an equivalence that ignores identifiers |
| ConditionFactory.AlikeMeans | XL-toolchain/src/main/java/it/uniroma2/netprog/xtrac/model/operand/Register.java:8-13 | operands are equal exactly when they are of one sort and agree in what that sort is compared by |
| ConditionFactory.PutIsMap | XL-toolchain/src/main/java/it/uniroma2/netprog/xtrac/compiler/utils/ConditionFactory.java:27-32 | putting a condition makes its number that of all equal ones and leaves the others theirs |
| ConditionFactory.Factory.CreateCondition | XL-toolchain/src/main/java/it/uniroma2/netprog/xtrac/compiler/utils/ConditionFactory.java:27-32 | the condition gets the next number; the numbering stays right if and only if the condition is new |
| ConditionFactory.Factory.GetCondition | XL-toolchain/src/main/java/it/uniroma2/netprog/xtrac/compiler/utils/ConditionFactory.java:39-43 | the number handed out is that of an equal listed condition |
| ConditionFactory.Factory.Intern | XL-toolchain/src/main/java/it/uniroma2/netprog/xtrac/compiler/XtraCompiler.java:398-402 | a condition is listed once, and its number indexes an equal one |
| ConditionFactory.Factory.InternAll | XL-toolchain/src/main/java/it/uniroma2/netprog/xtrac/compiler/XtraCompiler.java:373-410 | after any sequence of requests, numbers are 0 to n-1 in creation order without duplicates and every number handed out indexes an equal condition |
| ConditionFactory.DistinctCovers | XL-toolchain/src/main/java/it/uniroma2/netprog/xtrac/compiler/XtraCompiler.java:373-410 | every request has an equal condition among the listed ones |
| ConditionFactory.Factory.GetConditionsAndClear | XL-toolchain/src/main/java/it/uniroma2/netprog/xtrac/compiler/utils/ConditionFactory.java:45-49 | the listed conditions are handed over in the order of their numbers, no two equal, and the factory starts anew |
| ConditionFactory.ClassesAreConfused | XL-toolchain/src/main/java/it/uniroma2/netprog/xtrac/model/condition/Condition.java:18-31 | a global and a local register of the same name are listed once |
| ConditionFactory.InterningIsExact | XL-toolchain/src/main/java/it/uniroma2/netprog/xtrac/model/condition/Condition.java:18-31 | conditions are listed as requested if and only if no two equal requests differ in the class of an operand |
| ConditionNumbers.AlikeExactly | XL-toolchain/src/main/java/it/uniroma2/netprog/xtrac/compiler/utils/LocalRegisterFactory.java:26-35 | the compiler takes two operands for the same if and only if they are the same or a local and a global register with the same number |
| ConditionNumbers.ListedInOrder | XL-toolchain/src/main/java/it/uniroma2/netprog/xtrac/compiler/XtraCompiler.java:373-410 | conditions that a program first uses in the order of their numbers, no two taken for the same, are listed with exactly these numbers |
| ConditionNumbers.NumberConditions | XL-toolchain/src/main/java/it/uniroma2/netprog/xtrac/compiler/XtraCompiler.java:373-410 | the factory hands out exactly the condition numbers in the blocks, and lists the conditions of the table |
| ConditionNumbers.PolicerNumbers | UseCases/traffic_policer.xl:26-43 | the conditions of the policer are told apart and first used in the order of their numbers |
| ConditionNumbers.PortKnockingNumbers | UseCases/port_knocking_firewall.xl:10-45 | likewise for the firewall |
| ConditionNumbers.LoadBalancerNumbers | UseCases/load_balancer.xl:16-29 | likewise for the load balancer, which uses its first condition twice |
| ConditionNumbers.ElephantNumbers | UseCases/elephant.xl:20-29 | likewise for the elephant detector |
| Tcam.PackConditions | NetFPGA-loader/src/parser.py:162-231 | conditions are split into exact and computed ones in order; the field list has every exact field once |
| Tcam.PackedMeaning | NetFPGA-loader/src/parser.py:162-231 | a condition on packet bytes is exact exactly when it compares them with a constant in a way that only equal numbers meet, and is then true of a slot as its comparison says |
| Tcam.WriteConditions | NetFPGA-loader/src/programmer.py:235-245 | the j-th computed condition goes to register j; fails exactly when there are more than four |
| Tcam.GetConditionsResults | NetFPGA-loader/src/parser.py:233-242 | the listed outcomes over don't-cares, the last one for a condition counts |
| Tcam.LastListed | NetFPGA-loader/src/parser.py:233-242 | a condition keeps the last outcome listed for it that is not a don't-care |
| Tcam.FindPosition | NetFPGA-loader/src/fb_defines.py:53-59 | the position holds the field if it is listed, and is 0 otherwise |
| Tcam.WriteExact | NetFPGA-loader/src/programmer.py:110-122 | the constant and the mask of a field are merged into the two words its slot spans |
| Tcam.AddedSlots | NetFPGA-loader/src/programmer.py:114-119 | merging a constant changes its own slot only |
| Tcam.AddedMasks | NetFPGA-loader/src/programmer.py:121-122 | merging a mask changes its own slot only |
| Tcam.WriteConditionBits | NetFPGA-loader/src/programmer.py:94-133 | after all conditions the words have the asked bits in every slot and one bit per computed condition |
| Tcam.WriteState | NetFPGA-loader/src/programmer.py:135-137 | the state goes below the conditions; 255 leaves it open |
| Tcam.StateByte | NetFPGA-loader/src/programmer.py:135-137 | a state that is a byte is matched as it is, of any other one the low byte |
| Tcam.WriteTcam2Entry | NetFPGA-loader/src/programmer.py:94-146 | for every key, the written words match exactly when the key has what the entry asks for, with header fields placed as in stage 0 |
| Tcam.EntryMatches | NetFPGA-loader/src/registers.py:50-54 | matching the packed words is matching state, condition bits and each header-field slot |
| Tcam.EncodingIsRight | NetFPGA-loader/src/fb_defines.py:31-79 | for fields of 1, 2 or 4 bytes with constants that they hold, value and mask match exactly the slots that hold the constant; for a port, exactly those of packets that came by it, whose one bit is the lower of the two bits of the port |
| Tcam.EncodingExactly | NetFPGA-loader/src/fb_defines.py:31-79 | for every constant: wider ones are cut to their field, those of three-byte fields become 0 |
| Tcam.PortBits | NetFPGA-loader/src/registers.py:72-76 | the code of port n is bit 2(n - 1) |
| Tcam.SlotOfBytes | NetFPGA-loader/src/fb_defines.py:63-79 | the value of a field is the number that its bytes are in network order |
| Tcam.KeyLayout | NetFPGA-loader/src/programmer.py:110-137 | where state, condition bits and slots are in the words of a key |
| Tcam.RegistersInOrder | NetFPGA-loader/src/programmer.py:98-133 | the running number of computed conditions is the number of their register |
| Tcam.RegisterHasCondition | NetFPGA-loader/src/programmer.py:235-245 | bit 8+j stands for the condition that was loaded into register j |
| Tcam.EntryMeaning | NetFPGA-loader/src/programmer.py:94-137 | with one constant per field, an entry matches exactly when the state fits, computed conditions come out as wanted and used exact conditions are true, whatever was wanted of them |
| Tcam.OneConstantEntry | NetFPGA-loader/src/programmer.py:94-137 | with one constant per field, an entry matches exactly the keys that satisfy its row if and only if no exact condition is wanted false |
| TcamEntries.EntryIsRow | NetFPGA-loader/src/programmer.py:94-137 | for every row, whatever its constants: an entry matches exactly the keys that satisfy it if and only if, on every used field, the constants as encoded are consistent with what is wanted and leave the field one value |
| TcamEntries.PinnedByTrue | NetFPGA-loader/src/programmer.py:110-122 | with fewer than 255 conditions, the row leaves a field one value exactly when a condition on it is wanted true |
| TcamEntries.EntryOfFewConditions | NetFPGA-loader/src/programmer.py:94-137 | with fewer than 255 conditions, entry and row match the same keys if and only if every used field has a condition that is wanted true and constants for which all its conditions come out as wanted |
| TcamEntries.OtherStage | NetFPGA-loader/src/programmer.py:110 | an entry written with the fields of stage 0 matches the keys of another stage as it should if and only if both lists make it ask the same of every slot |
| TcamEntries.SamePositionsSuffice | NetFPGA-loader/src/programmer.py:110 | it is enough that every used field is at the same position in both lists |
| Tcam.ContradictionIsMatched | NetFPGA-loader/src/programmer.py:114-119 | contradicting constants on one field give an entry that matches although no key satisfies the row |
| Unicode.DecodeEncode | SW-FB/cJSON.c:584-702 | the UTF-8 form of every scalar value decodes back to it |
| Unicode.EncodeDecode | SW-FB/cJSON.c:584-702 | every sequence a strict decoder accepts is such a form |
| Unicode.HexDigitExactly | SW-FB/cJSON.c:547-581 | the hexadecimal digits and their values, in either case |
| Unicode.HexValue | SW-FB/cJSON.c:547-581 | the four digits of a number have it as their value |
| Unicode.PairOf | SW-FB/cJSON.c:596-636 | every code point above U+FFFF is that of its surrogate pair |
| JsonStrings.StringMeaning | SW-FB/cJSON.c:705-831 | a literal spelled in plain bytes, the short escapes of RFC 8259, \u escapes and surrogate pairs reads as what its pieces mean |
| JsonStrings.UnescapeExactly | SW-FB/cJSON.c:766-795 | the code knows exactly the eight short escapes, for the bytes that they stand for |
| JsonStrings.LoneSurrogateRejected | SW-FB/cJSON.c:596-636 | a lone surrogate makes the whole literal invalid |
| JsonStrings.AcceptedExactly | SW-FB/cJSON.c:705-831 | the literals that are accepted, and what each is read as, in terms of their pieces |
| JsonStrings.ProperExactly | SW-FB/cJSON.c:547-831 | a text is a literal by the grammar with paired surrogates if and only if it is accepted, digits follow every \u in it, and no control byte stands in it |
| JsonStrings.GrammarAccepted | SW-FB/cJSON.c:547-831 | a literal by the grammar is accepted if and only if all its surrogates are paired, and then reads as what its characters mean |
| JsonStrings.LoneSurrogateIsGrammatical | SW-FB/cJSON.c:596-636 | a literal by the grammar that is rejected |
| JsonStrings.BadDigits | SW-FB/cJSON.c:547-636 | characters after \u that are not all digits fail as a first escape exactly when fewer than six bytes remain, and always as the second half of a pair |
| JsonStrings.BadDigitsReadAsNul | SW-FB/cJSON.c:547-581 | a literal that is accepted although it is none by RFC 8259 |
| JsonStrings.ReadQuoted | SW-FB/cJSON.c:834-953 | a printed string reads back as the C string that was printed |
| JsonStrings.PrintedIsWritten | SW-FB/cJSON.c:834-953 | a printed string is spelled in one piece for each byte, which mean these bytes: control characters, quotes and backslashes by their short form if they have one, else by \u, all others as they are |
| JsonRoundTrip.StrtodNumberText | SW-FB/cJSON.c:273-347 | a printed integer of at most fifteen digits is read completely and as that integer |
| JsonNumbers.StrtodExactly | SW-FB/cJSON.c:273-347 | what leads a text as a number is read to its end: integers of at most fifteen digits for their value, others for their spelling |
| JsonNumbers.StrtodLeads | SW-FB/cJSON.c:273-347 | whatever is read as a number leads the text as one |
| JsonNumbers.NumberIsRead | SW-FB/cJSON.c:273-347 | every number of RFC 8259 of at most 63 bytes is read to its end |
| JsonRoundTrip.ReadValue | SW-FB/cJSON.c:1219-1271 | inside any text, a printed value is read up to its end, exactly when it does not nest too deeply |
| JsonRoundTrip.RoundTrip | SW-FB/cJSON.c:1219-1724 | parsing the print of a value, formatted or not, yields that value and consumes it exactly, if and only if it nests at most 1000 deep |
| JsonTrees.ParseExactly | SW-FB/cJSON.c:1219-1587 | a value is read exactly where the text has a tree of names, numbers, strings, brackets and braces, for the value of that tree |
| JsonTrees.TextExactly | SW-FB/cJSON.c:1007-1084 | a whole text is parsed exactly when it has such a tree behind the byte order mark and white space, and only white space behind it when the end is asked for |
| JsonRoundTrip.SeenIsSame | SW-FB/cJSON.c:834-953 | what C sees of a value is the value if and only if no string holds a NUL |
| JsonPrinter.PrintBuffer.Ensure | SW-FB/cJSON.c:380-465 | room for the needed bytes, keeping what was written; fails exactly when the capacity does not suffice |
| JsonPrinter.PrintBuffer.UpdateOffset | SW-FB/cJSON.c:468-478 | the offset moves to the terminator of what was written |
| JsonPrinter.PrintBuffer.PrintString | SW-FB/cJSON.c:834-953 | the quoted and escaped string stands behind what was there |
| JsonPrinter.PrintBuffer.PrintNumber | SW-FB/cJSON.c:481-544 | an integer of at most fifteen digits is printed in decimal |
| JsonPrinter.PrintBuffer.PrintValue | SW-FB/cJSON.c:1274-1345 | the text of the value stands behind what was there, exactly when it and two bytes fit |
| JsonPrinter.PrintBuffer.PrintArray | SW-FB/cJSON.c:1442-1501 | the text of the array stands behind what was there, exactly when it fits |
| JsonPrinter.PrintBuffer.PrintObject | SW-FB/cJSON.c:1613-1724 | the text of the object stands behind what was there, exactly when it fits |
| JsonPrinter.Print | SW-FB/cJSON.c:1094-1156 | the result is the text with its terminator |
| JsonPrinter.PrintPreallocated | SW-FB/cJSON.c:1199-1216 | succeeds exactly when the storage has two bytes more than the text |
| PrintedLayout.ScalarLayout | SW-FB/cJSON.c:1274-1345 | names and digits, byte by byte |
| PrintedLayout.NumberLayout | SW-FB/cJSON.c:481-544 | a number has the digits of its tenth in front of its last one |
| PrintedLayout.ArrayLayout | SW-FB/cJSON.c:1442-1501 | brackets, commas and spaces |
| PrintedLayout.ObjectLayout | SW-FB/cJSON.c:1613-1724 | braces, new lines and indentation |
| PrintedLayout.MemberLayout | SW-FB/cJSON.c:1613-1724 | indentation, colon, tab and comma of a member |
| JsonParser.EscapesFit | SW-FB/cJSON.c:716-752 | the escapes counted in the first pass are bytes the decoded string does not need |
| JsonParser.MeaningFits | SW-FB/cJSON.c:757-814 | no character decodes to more bytes than the first pass reserved for it |
| JsonParser.ParseBuffer.Utf16Literal | SW-FB/cJSON.c:584-702 | an escape or surrogate pair is written as the UTF-8 form of its code point; invalid ones fail |
| JsonParser.ParseBuffer.FindClosingQuote | SW-FB/cJSON.c:716-739 | the first pass finds the closing quote and counts the escapes |
| JsonParser.ParseBuffer.DecodeContents | SW-FB/cJSON.c:757-814 | the second pass writes the decoded bytes inside the buffer the first pass measured |
| JsonParser.ParseBuffer.ParseString | SW-FB/cJSON.c:705-831 | the two passes read a literal as the grammar says |
| JsonParser.ParseBuffer.ParseNumber | SW-FB/cJSON.c:273-347 | at most 63 number bytes are read, and the offset moves behind the number, whose value is kept as an integer up to fifteen digits and as its spelling beyond |
| JsonParser.ParseBuffer.ParseValue | SW-FB/cJSON.c:1219-1271 | a value is read as the grammar says, and the depth is restored |
| JsonParser.ParseBuffer.ParseElements | SW-FB/cJSON.c:1383-1415 | the loop over the elements links them in order |
| JsonParser.ParseBuffer.ParseFields | SW-FB/cJSON.c:1537-1587 | the loop over the members links them in order |
| JsonParser.ParseText | SW-FB/cJSON.c:1007-1084 | a whole C string is parsed as the grammar says, with the byte order mark skipped |
| JsonMinify.Minify | SW-FB/cJSON.c:2636-2704 | the in-place minifier leaves the minified text and its terminator, and its writing never passes its reading |
| JsonMinify.ShrinkValue | SW-FB/cJSON.c:2636-2704 | minifying a printed value inside any text turns it into its unformatted print |
| JsonMinify.MinifyPrinted | SW-FB/cJSON.c:2636-2704 | minifying any print of a value gives byte for byte its unformatted print |
| JsonComments.MinifiedExactly | SW-FB/cJSON.c:2636-2704 | a text is minified exactly when it consists of white space, comments, literals and other bytes, and what remains are the literals and the other bytes |
| JsonComments.ShortestComment | SW-FB/cJSON.c:2666-2674 | slash, star, slash is a whole comment |
| JsonChildren.GetArrayItem | SW-FB/cJSON.c:1750-1766 | the child at an index, or null behind the last and for a negative index |
| JsonChildren.AddItemToArray | SW-FB/cJSON.c:1851-1878 | the child list is the old one with the item at its end |
| JsonChildren.InsertItemInArray | SW-FB/cJSON.c:2148-2175 | the child list has the item at the index, all others in their order |
| JsonChildren.DetachItemViaPointer | SW-FB/cJSON.c:2078-2106 | the child list lacks the item, which points nowhere; nothing happens without parent or item |
| JsonChildren.ReplaceItemViaPointer | SW-FB/cJSON.c:2177-2210 | the replacement stands where the item stood; fails exactly when a node is missing |
| JsonChildren.DetachAndReinsert | SW-FB/cJSON.c:2078-2175 | detaching a child and inserting it at its old index restores the list |

## Left out

- Floating-point numbers: printing covers integers below 10^15 in magnitude, as `%1.15g` spells them; other numbers are parsed to their spelling only, without value; `valueint` and its saturation are left out.
- JsonPrinter.Print: values without other numbers and raw items; the same holds for PrintPreallocated and the methods of PrintBuffer.
- JsonMinify.Minify: texts without an open literal or block comment, for which the code runs past the terminator.
- JsonChildren.AddItemToArray: items that do not point anywhere, since the code leaves the links of an appended item as they are; likewise JsonChildren.InsertItemInArray behind the last child.
- JsonParser.ParseBuffer.ParseNumber: numbers other than integers of at most fifteen digits get their spelling and not the double that the code stores; likewise JsonParser.ParseBuffer.ParseValue and JsonParser.ParseText.
- JSON error positions, allocation failure, freeing, raw items, item references, key comparison with case folding, duplication and comparison of trees.
- JsonParser.ParseBuffer.ParseElements: children become a linked list value instead of nodes rewired through pointers; the pointer operations themselves are modelled in JsonChildren.
- JsonParser.ParseBuffer.ParseFields: likewise for the members of an object.
- Packet.SetGet: the Ethernet type, IPv4, TCP and UDP fields of one, two or four bytes; six-byte, ICMP, GTP and metadata fields are not part of this model, nor of Headers.PacketFields and Engine.XfsmTable.PerformAction.
- Headers.PacketFields.ParsePktHeader: frames of at least 38 bytes that carry TCP, UDP or ICMP; for other protocols the code keeps pointers into an earlier packet. ICMP, GTP, MAC-address and metadata fields are not part of this model.
- FlowKey.SameKeyExactly: key fields that fit a 32-bit word, which are all but the time stamp, of packets that have them all; FlowKey.ExtractedWord has the general case.
- ProgramRuns.RunPolicer: frames of at least 38 bytes that carry TCP, UDP or ICMP, with time stamps that stay 131072 microseconds below 2^63; frames of the same kind for ProgramRuns.RunFirewall and ProgramRuns.RunElephant.
- FlowKey.KeyExtract: keys of at most seven fields, since the code stores each as 64 bits into an array of eight 32-bit words.
- TableIndex.Index.constructor: tables without rows for state 255, with at most ten rows per state and at least as many rows as states; a row for state 255 overwrites the node of state 0, as TableIndex.KeyList.InsertKey says.
- TableIndex.KeyList.InsertEntry: nodes that list fewer than ten rows, since the code writes an eleventh one past its array.
- TableIndex.KeyList.Distribute: rows for other states than 255; likewise TableIndex.Index.DistributeAll and TableIndex.Index.EnterAll.
- Engine.XfsmTable.FindMatch: the number of results in a cache key, a macro that the engine leaves to its user, is taken to be the number of conditions.
- Engine.XfsmTable.InsertInstance: which free slot a new key gets is left to the hash, which is assumed to succeed while a slot is free.
- Signed overflow in register arithmetic is modelled as two's complement wrap-around.
- Pipeline.ProcessPacket: rows must go on to a later stage or to none, and must not set the IPv4 protocol; transmission itself, bursts, timers and command-line handling are left out.
- Policer.RateIsBounded: time stamps must stay 131072 microseconds below 2^63; likewise for the other lemmas about the policer.
- Engine.XfsmTable.constructor: tables with at most ten states, since the hash of the states holds no more.
- Programs.LoadBalancerCompiles: without the actions of `UseCases/load_balancer.xl:18`, `:25`, `:33` and `:38` that set a destination byte, which is not a field of the software engine.
- ConditionNumbers.NumberConditions: operands as the compiler names them, constants without leading zeros, and the conditions of the rows for state `any` left out.
- LoadBalancer.OnePacket: without the rewriting of a destination byte, which is not a field of the software engine, and without the rows for state `any`, which PortKnocking leaves out as well.
- TableRowFactory.Factory.CompileState: actions in sequential blocks and macro actions are plain actions here; which event a row without ifs is filed under depends on the event read last, and the order of such rows on a hash.
- Tcam.PackConditions: event fields compared in any way but for equality with a constant are excluded, since the loader stops on them later; constants are 32-bit numbers.
- Tcam.EncodingIsRight: fields of one, two or four bytes with constants that they can hold; wider constants are cut off and fields of three bytes get the constant 0, as TcamEntries.EntryIsRow takes into account.
- Tcam.EntryMeaning: the same fields and constants; likewise Tcam.OneConstantEntry.
- Tcam.OneConstantEntry: one constant per field; TcamEntries.EntryIsRow has the general case.
- Tcam.WriteTcam2Entry: at most three header fields and four computed conditions. Action memories and the words of the arithmetic unit are left out.
- The program loader of the software engine, the language front end, the firmware and the hardware description.
