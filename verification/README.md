# Barley: a verified model of its packet-processing core

Barley processes packets on Octeon multicore chips. This project models its five algorithmic
components in Dafny and proves what they are for.

**Packet classifier** (`Bitmaps`, `EqClasses`, `Filters`, `Sweep`, `Classifier`, `RuleHistory`, `RuleTable`,
`TableBounds`, `ClassBounds`; `SplitOrder`, `ThreePhase`, `ThreePhaseAcl`, `ThreeBounds`; rule sets as
examples in `RuleBatch` and `PortRules`). Rules are kept in an array sorted by tag and compiled into
equivalence-class tables; a lookup is a fixed chain of table reads. The chain is proved equal to a
linear first-match scan for every packet, and the whole engine, from operator commands to the answer,
to "the smallest enabled tag whose nonzero fields equal the packet's". `ClassBounds` bounds the tables
by the values that the rules name. The four-phase variant is the live one; the three-phase variant is a
second reduction tree, proved to agree with it. The loops that fill the tables are methods on arrays
and objects; what they compute is stated by functions on rule sets.

**TCP reassembly** (`Reassembly` and its `Ledger`, `Bytes`, `Stream` and `Outcome` parts, `TcpFlows`). Pure
functions say what one segment, acknowledgement, flush or expiry does to a session; the class in
`TcpFlows` updates its fields step by step, as the code does, and every method is proved to change the
session as its function says. `ReassemblyOutcome` says of the queues themselves what one packet does, in
every case; order, bytes, ownership and release are proved over whole runs. `BsdList` proves that the
list macros do to their pointers what the sequence operations used elsewhere do to the list.

**DMA blocks** (`CellMemory`, `BlockPacking`, `Submission`, `BlockProtocol`, `BlockSteps`, `BlockOrder`,
`BlockRefines`, `Rings`, `SsnFifo`, `DriverPool`; `SimpleChannel`, `SimpleProtocol`). `BlockProtocol` is
a state machine whose steps are what one core does under the locks it holds, and what the host does;
sessions and fifos interleave freely. `BlockSteps` proves conservation of blocks and safety of
publication over all runs. The step for a full completed ring is in the machine, and is proved
impossible. `BlockPacking` works on bytes: what a published block decodes to is the list of packets that
went in. `BlockOrder` puts these together: what the host receives of a session is what was submitted,
in order. `CellMemory` lays out the cells byte by byte and says exactly which packets they hold.
`Rings`, `SsnFifo`, `Submission`, `SimpleChannel` and `DriverPool` are the imperative parts: ring arrays
with two-part copies, posting loops, offsets; `BlockRefines` shows that what the session parts do are
runs of the state machine's steps, and `SimpleProtocol` is the state machine of the simple channel.

**Two-tuple filter** (`TwoTupleRules`, `HashIndex`). An array of rules and bucket lists kept in
agreement, and a lookup through four buckets that equals a scan of the rules in the order last set, for
any hash function.

**Session table** (`Tuples`, `SessionTable`). Buckets with an embedded first cell and a chain of
others; find-or-create, purge and ageing.

`Bytes`, `Sequences` and `FiniteSets` hold what several of these share. `dafny verify dfyconfig.toml`
checks everything.

## Conventions

- A C record updated in place is a class with its fields, or an array of values when it sits in an
  array. A `ghost` history field says which commands or packets an object has seen.
- `requires` clauses name what the C callers guarantee: indexes in the ranges their loops keep to, the
  lock under which a bucket is touched. Error returns are results, not preconditions, and so are writes
  past the end of an array that the code does not guard: they have outcomes of their own. Rule tags are
  passed on unchecked and are any 16 bits here.
- Statements about streams that do not wrap say so with `InWindow`: sequence numbers below 2^32 and
  less than 2^31 past the session's first. The ledger statements hold without it.

## Where the code does not do what its use suggests

- Compiling can run past the class list `ces[]`, for which the code has no check. The model's outcome
  `ListOverrun` stands for that write. With a, b, c, d and e distinct nonzero source addresses,
  destination addresses, source ports, destination ports and protocols among the enabled rules it does
  not happen when (a + 1)(b + 1) <= 2048 and (c + 1)(d + 1)(e + 1) < 2048 (`RulesFit`). For rules on
  ports alone that is the exact limit (`PortRulesOverrun`), and a hundred of them pass it. Phase 0
  alone never overruns while the array has a free slot (`PhaseZeroFits`) and can when it is full
  (`FullArrayOverruns`). Lookups are stated after a compile that ended `Done`.
- The three-phase variant does not check that joined tables fit their cells either; `CellError` stands
  for that write there. For the hundred rules of `NoOrderFits` it happens in every order;
  `FewValuesFit` says for which rules it cannot.
- The cell counts that pick the three-phase order are C ints and wrap. For the 1300 rules of
  `WrapsToTheWorst` the order kept is the worst one. When the tables of some order fit, no count
  reaches 2^31 and the order kept is truly the best (`KeptHasFewest`); in general it is the best if and
  only if its own count is below 2^31, provided that some order's is (`FewestCells`).
- The simple channel's length test admits packets of up to 2048 bytes, and its cells hold 2008. A longer
  packet runs into the next cell, and its DMA leaves the block. `IntactExactly` shows that this is the
  exact limit and `Payload1937` the smallest case; the outcome `Overrun` stands for it, and what is
  proved of order is about packets that were queued whole.
- A session's payload cell holds 1600 bytes (`FRC_CONFIG_SSN_WQE_TEST` is 0), and a longer payload
  overwrites its own length and offsets. `PayloadKeptExactly` and `Payload1601` say so byte by byte;
  `OverrunExactly` shows that this is the only way a run can go wrong, and `PublishedIsComplete` is
  stated for the runs without it.
- Tag 0 is also the answer for no rule, and an array of 2048 rules has no blank slot left to give that
  answer; `ScanIsVerdict` is exact about both. Tags from 1 to 2046 avoid them (`InRangeIsTold`).
- The sweep treats a range as the interval it denotes except in two cases, which `SweepExact` pins down;
  neither arises from a rule that a command sets.
- An equal-end retransmission replaces the queued entry whole and so loses its first bytes;
  `SameEndBytes` says exactly which.
- For a flow between two ports of one address, sorting cannot tell the directions apart, so they can
  have one session each; `BothDirectionsMeet` gives the exact condition.
- An emptied cell's links are set to an invalid address by `LIST_REMOVE`; the model makes them null.

## Model

| member | source | states |
|---|---|---|
| Bitmaps.SetBmpBit | code/frcore/frcore_rfc.c:11-25 | the bitmap stands for its old rules with one rule added or removed, no other bit touched |
| Bitmaps.CompareBmp | code/frcore/frcore_rfc.c:36-47 | says yes exactly when two bitmaps stand for the same set of rules |
| Bitmaps.GetRuleCost | code/frcore/frcore_rfc.c:105-126 | the lowest rule in a bitmap, or the last slot when it is empty |
| Bitmaps.RulesInjective | code/frcore/frcore_rfc.c:36-47 | two bitmaps that stand for one set of rules are equal word for word |
| EqClasses.Node.SearchBmp | code/frcore/frcore_rfc.c:53-68 | finds the class of a rule set, and reports none only when no class is that set |
| EqClasses.Node.AddListEqsCES | code/frcore/frcore_rfc.c:72-100 | appends one class and hands out its number |
| EqClasses.Node.Record | code/frcore/frcore_rfc.c:53-100 | keeps a table's cells and its list of pairwise different classes in step, and fails exactly when the distinct rule sets exceed the list |
| EqClasses.CrossAt | code/frcore/frcore_acl.c:1080-1098 | mixed-radix addressing: cell i times the class count plus j of a product table is inside it and is the intersection of classes i and j |
| EqClasses.IntersectTables | code/frcore/frcore_rfc.c:385-449 | the product table of two tables, or the exact reason why it does not fit |
| Sweep.SweepExact | code/frcore/frcore_rfc.c:140-184 | the bit that the sweep carries for a range is interval membership at all 65536 values if and only if the range does not end before it starts and is not the whole 32-bit range |
| Sweep.SweepBitClosedForm | code/frcore/frcore_rfc.c:140-184 | after value n the running bitmap has a sweepable rule exactly when its range contains n |
| Sweep.UpdateBmp | code/frcore/frcore_rfc.c:150-172 | one step of the sweep turns the rules open before a value into those open at it |
| Sweep.SweepField | code/frcore/frcore_rfc.c:140-192 | a field's table: every one of 65536 values gets the class of the rules open there, classes pairwise different |
| TableBounds.SweepClassBound | code/frcore/frcore_rfc.c:140-192 | a field has at most twice as many classes as enabled rules, plus one, though 65536 values are swept |
| ClassBounds.PhaseZeroFits | code/frcore/frcore_rfc.c:140-192 | a field has at most one class more than there are rules, so with a free slot phase 0 never overruns its class lists |
| PortRules.FullArrayOverruns | code/frcore/frcore_rfc.c:140-192 | 2048 rules set by commands, which fill the array, for which it does |
| ClassBounds.FieldBound | code/frcore/frcore_rfc.c:140-192 | a field has a class for each distinct value that enabled rules name and one more, and one more again for the protocol |
| ClassBounds.AddressBound | code/frcore/frcore_rfc.c:385-449 | an address has a class for each distinct value and one more, whatever its halves have |
| ClassBounds.TransportBound | code/frcore/frcore_rfc.c:450-540 | ports and protocol have a class for each combination of values and one for no rule |
| ClassBounds.RulesFit | code/frcore/frcore_rfc.c:385-540 | a bound on the numbers of distinct values in the enabled rules, which can be worked out before compiling, under which no class list is ever overrun |
| ClassBounds.RulesCompile | code/frcore/frcore_rfc.c:385-595 | and, with a bound on the cells, under which compiling succeeds |
| ClassBounds.CommandsFit | code/frcore/frcore_rule.c:136-152 | the same in terms of the commands given so far |
| PortRules.PortRulesOverrun | code/frcore/frcore_rfc.c:385-449 | rules on c source ports and d destination ports overrun a class list exactly when (c + 1)(d + 1) exceeds 2048 and the cells fit |
| PortRules.HundredPortRules | code/frcore/frcore_rfc.c:385-449 | fifty and fifty of them do, set by a hundred commands |
| Classifier.SetFiltSync | code/frcore/frcore_rfc.c:128-137 | marks exactly the enabled filters as included, and changes nothing else |
| Classifier.SyncIrrelevant | code/frcore/frcore_rfc.c:128-137 | the marks change no table: two filter arrays that differ in them compile alike |
| Classifier.SetPhase0Cell | code/frcore/frcore_rfc.c:140-192 | phase 0 compiles all seven fields, or reports which outcome stopped it |
| Classifier.PairInto | code/frcore/frcore_rfc.c:385-540 | one product table from two earlier ones, with its outcome, the earlier ones untouched |
| Classifier.SetPhase1Cell | code/frcore/frcore_rfc.c:385-449 | phase 1 pairs the address halves and the ports |
| Classifier.SetPhase2Cell | code/frcore/frcore_rfc.c:450-540 | phase 2 joins the addresses, and the ports with the protocol |
| Classifier.SetPhase3Cell | code/frcore/frcore_rfc.c:543-595 | each cell of the last table is the tag of the highest-priority rule left |
| Classifier.AclData.PreAclLookupByTuple | code/frcore/frcore_acl.c:1026-1043 | compiling ends with a status determined by the filters alone, and on success leaves tables that encode them |
| Classifier.CandidatesMatch | code/frcore/frcore_acl.c:1044-1109 | the seven fields' sets have in common exactly the enabled filters whose seven ranges contain the packet |
| Classifier.FirstMatchIsCost | code/frcore/frcore_acl.c:1044-1109 | the lowest common rule is the one that a linear scan finds first |
| Classifier.ReadPair | code/frcore/frcore_acl.c:1080-1098 | a table read that combines two class numbers stays inside the table and names the intersection of what they name |
| Classifier.LookupChain | code/frcore/frcore_acl.c:1044-1109 | the chain of table reads gives the tag of the best candidate |
| Classifier.AclLookupByTuple | code/frcore/frcore_acl.c:1044-1109 | for every packet the chain answers with the tag of the lowest-index enabled filter whose seven ranges all contain it, and with the last slot's tag when none does |
| Filters.ReadIpRange | code/frcore/frcore_acl.c:840-903 | an address becomes two ranges of halves; zero becomes any |
| Filters.DimsMeanKey | code/frcore/frcore_acl.c:769-944 | a packet is in all seven ranges of a rule exactly when each nonzero field of the rule equals the packet's |
| Filters.GetFilterInverts | code/frcore/frcore_acl.c:65-88 | the fields read back from the ranges are the fields that were set |
| Filters.FewFilters | code/frcore/frcore_acl.c:804-838 | tags in range never fill the array: its last slot stays free |
| Filters.InsertSorted | code/frcore/frcore_acl.c:804-838 | setting a rule keeps tags strictly increasing |
| Filters.InsertIsMapUpdate | code/frcore/frcore_acl.c:804-838 | setting a rule is an insert or a replacement in a map by tag |
| Filters.RemoveSorted | code/frcore/frcore_acl.c:397-412 | deleting keeps tags strictly increasing |
| Filters.RemoveIsMapRemoval | code/frcore/frcore_acl.c:397-412 | deleting takes out one tag of the map and no other |
| Filters.FiltSet.MoveBackFrom | code/frcore/frcore_acl.c:308-329 | opens a gap and keeps every filter, in order |
| Filters.FiltSet.MoveForwardFrom | code/frcore/frcore_acl.c:284-307 | closes a gap and keeps every filter, in order |
| Filters.FiltSet.AclSetFilter | code/frcore/frcore_acl.c:804-838 | for every tag, the array afterwards is the sorted list with the rule inserted or replaced, blank past its end; false exactly when the rule would be one more than the array has slots |
| Filters.FiltSet.AclDeleteOneFilterByTagid | code/frcore/frcore_acl.c:397-412 | the array afterwards is the list without the tag; a missing tag is reported and changes nothing |
| Filters.FiltSet.AclEnableOneFilterByTagid | code/frcore/frcore_acl.c:185-196 | only the state of the named rule changes |
| Filters.FiltSet.AclGetFilterByTagid | code/frcore/frcore_acl.c:247-275 | finds a tag if it is there and gives back the fields that were set |
| RuleHistory.PoliciesExact | code/frcore/frcore_rule.c:37-105 | after any history a tag has a rule exactly when the last command to set or delete it set it: that command's rule, in the state it was last switched to since, or enabled |
| RuleTable.AnswersAre | code/frcore/frcore_rule.c:346-362 | the verdict of the rules in force is the smallest tag whose last set rule is enabled and describes the packet |
| RuleTable.ScanIsVerdict | code/frcore/frcore_acl.c:1044-1109 | the first match of the array is the smallest tag whose rule applies, if and only if the rule with tag 0 does not apply and either some rule does or the array has a blank slot left |
| RuleTable.InRangeIsTold | code/frcore/frcore_rule.c:37-79 | after any history that sets only tags from 1 to 2046 that condition holds for every packet, and two slots are free |
| RuleTable.HoldsAfterSet | code/frcore/frcore_rule.c:37-79 | adding keeps the array equal to the rules that the commands describe |
| RuleTable.HoldsAfterDelete | code/frcore/frcore_rule.c:81-105 | so does deleting |
| RuleTable.HoldsAfterEnable | code/frcore/frcore_acl.c:185-196 | so does switching rules on and off |
| RuleTable.RuleEngine.RuleAdd | code/frcore/frcore_rule.c:37-79 | for every tag the history of the table grows by the command, unless the array is full; then nothing changes, and the result stands for the write past it |
| RuleTable.RuleEngine.RuleDelOne | code/frcore/frcore_rule.c:94-101 | one tag of the run; a missing rule is reported |
| RuleTable.RuleEngine.RuleDel | code/frcore/frcore_rule.c:81-105 | a run of tags, which goes on from the highest at 0: the history grows by all the deletions, and the count is that of the rules that went |
| RuleTable.RuleEngine.RuleGet | code/frcore/frcore_acl.c:247-275 | said of the commands: the rule that a tag was last set to, its fields, its other particulars and its state, and none if it was never set or deleted since |
| RuleTable.RuleEngine.RuleEnable | code/frcore/frcore_acl.c:185-196 | likewise for switching one rule; a missing one is reported |
| RuleTable.RuleEngine.RuleUpdate | code/frcore/frcore_rule.c:136-152 | a successful update makes lookups answer for the history so far |
| RuleTable.RuleEngine.RuleProcess | code/frcore/frcore_rule.c:346-362 | end to end, said of the commands published: the answer is the smallest tag whose last set rule is enabled and whose every nonzero field equals the packet's, and 0 if and only if there is none; this exactly unless tag 0 applies or a full array has no match |
| SplitOrder.FindOrder | code/frcore/frcore_rfc.c:195-234 | the order is a permutation of the six fields, and no permutation has a smaller cell count as computed in 32 bits |
| SplitOrder.Normalise | code/frcore/frcore_rfc.c:195-234 | every permutation costs what one of the ten enumerated splits costs |
| SplitOrder.FewestCells | code/frcore/frcore_rfc.c:195-234 | when some order has fewer than 2^31 cells, the order kept has the fewest if and only if its own are below 2^31 |
| SplitOrder.OneFits | code/frcore/frcore_rfc.c:195-234 | if both halves of some order fit a table, no order has 2^31 cells |
| ThreeBounds.KeptHasFewest | code/frcore/frcore_rfc.c:195-337 | so whenever the joined tables of some order have room for their cells, the order kept truly has the fewest |
| ThreeBounds.WrapsToTheWorst | code/frcore/frcore_rfc.c:195-234 | 1300 rules set by commands for which the cell counts wrap, and any order that can be kept has 2202073902 cells where the fields in their own order have 1693902 |
| ThreeBounds.NoOrderFits | code/frcore/frcore_rfc.c:239-337 | a hundred rules set by commands for which in every order the first joined table is written past its cells |
| ThreeBounds.FewValuesFit | code/frcore/frcore_rfc.c:239-337 | a bound on the rules' distinct values under which both joined tables fit in every order |
| ThreeBounds.FewValuesCompile | code/frcore/frcore_acl.c:948-983 | and a further bound under which the three phases compile in every order |
| ThreePhase.FourAt | code/frcore/frcore_acl.c:1003-1006 | the index built with the stored strides is inside the four-way table and is the intersection of the four classes |
| ThreePhase.ThreeAt | code/frcore/frcore_acl.c:1007-1009 | the same for the three-way table |
| ThreePhase.Fill | code/frcore/frcore_rfc.c:284-331 | the nest of loops writes the product of all class lists, each cell the class of its own intersection |
| ThreePhase.Product | code/frcore/frcore_rfc.c:239-337 | a joined table, or the exact reason why it does not fit |
| ThreePhaseAcl.SetPhase1 | code/frcore/frcore_rfc.c:239-337 | both joined tables, taken in an order that no other beats |
| ThreePhaseAcl.SetCosts | code/frcore/frcore_rfc.c:342-382 | each cell of the last table is the lowest rule of its row |
| ThreePhaseAcl.PreAclLookupByTuple | code/frcore/frcore_acl.c:948-983 | compiling the three phases, with its outcome determined by filters and order |
| ThreePhaseAcl.AclLookupByTuple | code/frcore/frcore_acl.c:985-1023 | for every packet the three-phase chain gives the index of the filter that a linear scan finds first |
| ThreePhaseAcl.TreesAgree | code/frcore/frcore_acl.c:985-1109 | compiled one after the other from the same filters, whose sync marks the first compile changes, the four-phase answer is the tag of the rule index that the three-phase tables give, for every packet |
| Reassembly.SeqGtIsGreater | code/frcore/frcore_tcpflowrec.h:14 | between numbers less than 2^31 apart the modular comparison is the ordinary one |
| Reassembly.TrimTailSound | code/frcore/frcore_tcpflowrec.c:752-785 | trimming later entries leaves them ordered, apart and not empty, starting at or after the segment's end |
| Reassembly.JudgeExact | code/frcore/frcore_tcpflowrec.c:695-745 | what the entry before a segment makes of it, in ordinary arithmetic |
| Reassembly.MergeSound | code/frcore/frcore_tcpflowrec.c:608-822 | queueing any segment keeps the queue strictly ordered, pairwise disjoint, without empty entries, each next number the sequence plus the length |
| Reassembly.PlaceOutcome | code/frcore/frcore_tcpflowrec.c:788-838 | a placed segment leaves just the joined queue, or has all of it sent when the depth is reached |
| Reassembly.ReceiveKeepsInv | code/frcore/frcore_tcpflowrec.c:608-920 | every packet keeps both queues so, and shorter than the disorder depth |
| ReassemblyLedger.JoinWorks | code/frcore/frcore_tcpflowrec.c:752-822 | the work held after joining is what was held, less what the segment covers, plus its own |
| ReassemblyLedger.ReceiveLedger | code/frcore/frcore_tcpflowrec.c:608-920 | each packet's work ends up held by one entry or released once, and queue entries taken less those returned are those queued |
| ReassemblyLedger.ExpireLedger | code/frcore/frcore_tcpflowrec.c:480-523 | expiry releases all that is held, positive queue first, in order |
| ReassemblyLedger.RunLedger | code/frcore/frcore_tcpflowrec.c:424-920 | over any run of packets and expiries the work that arrived is exactly the work released and the work still queued, with none twice |
| ReassemblyLedger.RunKeepsInv | code/frcore/frcore_tcpflowrec.c:608-920 | over any run of segments that do not wrap the queues stay ordered, disjoint and below the depth |
| ReassemblyBytes.TrimTailBytes | code/frcore/frcore_tcpflowrec.c:752-785 | trimming takes away the bytes before the end and nothing else |
| ReassemblyBytes.QueuedBytes | code/frcore/frcore_tcpflowrec.c:718-822 | one accepted segment makes the covered range old plus new, earlier entries' bytes winning over it and it over later ones |
| ReassemblyBytes.DuplicateBytes | code/frcore/frcore_tcpflowrec.c:718-733 | a duplicate changes nothing and brings nothing that was missing |
| ReassemblyBytes.SameEndBytes | code/frcore/frcore_tcpflowrec.c:734-745 | the equal-end replacement loses exactly the bytes from the old entry's start to the segment's |
| ReassemblyStream.ReceiveGenuine | code/frcore/frcore_tcpflowrec.c:608-920 | a segment that agrees with the stream leaves every entry, queued or sent, with the stream's bytes for its range |
| ReassemblyStream.RunGenuine | code/frcore/frcore_tcpflowrec.c:424-920 | so over any run every queued and every emitted entry carries exactly the stream's bytes |
| ReassemblyStream.AcknowledgeReleases | code/frcore/frcore_tcpflowrec.c:526-570 | an expected acknowledgement emits exactly the prefix of entries that end at or before it, in order, and leaves an empty queue expecting nothing or the end of the maximal contiguous run from the new head |
| ReassemblyStream.AcknowledgeFlushes | code/frcore/frcore_tcpflowrec.c:541-554 | any other acknowledgement sends the whole queue |
| ReassemblyOutcome.ReceiveSays | code/frcore/frcore_tcpflowrec.c:608-920 | everything a packet does, of the queues alone: when it is dropped outright; what its acknowledgement sends of the other flow; that FIN or RST sends its own flow and ends the session; and of any other segment when it is refused, when it replaces an entry, and else just where it goes in, what it covers, when the queue is sent and which number is expected next |
| ReassemblyOutcome.KeptExactly | code/frcore/frcore_tcpflowrec.c:640-745 | a data segment's packet is held or handed on if and only if there was room and an entry for it and the entry before it neither starts more than 64K back nor reaches past its end |
| ReassemblyOutcome.DataHeld | code/frcore/frcore_tcpflowrec.c:680-838 | and then the flow, counting what was just sent of it, holds just the bytes it held and the segment's, byte by byte in each of the three cases |
| ReassemblyOutcome.TakenBytes | code/frcore/frcore_tcpflowrec.c:718-822 | the bytes of a segment that is taken in |
| ReassemblyOutcome.ReplacedBytes | code/frcore/frcore_tcpflowrec.c:734-745 | the bytes of one that replaces the entry before it |
| ReassemblyOutcome.AckSays | code/frcore/frcore_tcpflowrec.c:526-570 | an acknowledgement of the expected number sends just the entries that end by it and expects the end of the run at the new head; any other sends everything |
| ReassemblyOutcome.ExpireSays | code/frcore/frcore_tcpflowrec.c:480-523 | expiry sends both queues, the positive first, and leaves both flows empty and unlinked |
| TcpFlows.Session.SendPacket | code/frcore/frcore_tcpflowrec.c:424-453 | sending the head entry |
| TcpFlows.Session.TcpFlowFlush | code/frcore/frcore_tcpflowrec.c:457-477 | the loop sends every entry in order and resets the flow |
| TcpFlows.Session.TcpFlowFlushLock | code/frcore/frcore_tcpflowrec.c:480-523 | flushes and unlinks both flows |
| TcpFlows.Session.SendReverseTcpflow | code/frcore/frcore_tcpflowrec.c:526-570 | the loops do to the whole session what the acknowledgement function says |
| TcpFlows.Session.FindAfter | code/frcore/frcore_tcpflowrec.c:680-693 | the place of a segment among the entries |
| TcpFlows.Session.TrimFollowing | code/frcore/frcore_tcpflowrec.c:752-785 | the loop trims and frees just what the segment covers |
| TcpFlows.Session.PlaceSegment | code/frcore/frcore_tcpflowrec.c:752-861 | trimming, SYN, insertion, overflow and the run of the expected number together |
| TcpFlows.Session.ReassTcp | code/frcore/frcore_tcpflowrec.c:608-865 | the method changes the session exactly as the function that ReceiveSays describes, and keeps the length counter equal to the queue's length |
| TcpFlows.Session.TcpFlowRecovery | code/frcore/frcore_tcpflowrec.c:868-920 | the same for a packet off the wire |
| BsdList.ListUnique | code/frcore/frcore_queue.h:397-399 | a head's pointers determine its cells: the walk is unique |
| BsdList.InsertHead | code/frcore/frcore_queue.h:428-434 | the pointers become those of the list with a cell in front |
| BsdList.InsertAfter | code/frcore/frcore_queue.h:411-418 | of the list with a cell after a given one |
| BsdList.InsertBefore | code/frcore/frcore_queue.h:420-426 | of the list with a cell before a given one |
| BsdList.Remove | code/frcore/frcore_queue.h:438-449 | of the list without one cell, found with no walk |
| BsdList.Swap | code/frcore/frcore_queue.h:461-469 | of the two lists exchanged |
| BsdList.Walk | code/frcore/frcore_queue.h:397-399 | a walk meets each cell once, in order, and ends |
| BsdList.Append | code/frcore/frcore_filter.c:578-588 | walking to the end and inserting there appends |
| BlockPacking.ValueOfBe | code/include/frc_dma.h:47-69 | a field written as bytes reads back |
| BlockPacking.OffsetsMeet | code/frcore/frcore_tcpflowrec.c:97-99 | payloads growing up and records growing down never pass each other, and no offset goes below the block |
| BlockPacking.WritesApart | code/frcore/frcore_tcpflowrec.c:199-263 | no two writes of a packed block overlap, none touches the header, none leaves the block |
| BlockPacking.ReadBack | code/frcore/frcore_tcpflowrec.c:199-263 | a write that no other overlaps is read back whole, whatever came between |
| BlockPacking.DecodeBlock | code/frcore/frcore_tcpflowrec.c:97-263 | a complete block, whatever it held before, decodes to its key and the exact list of packets |
| Submission.SubmitAddr.CheckSsnAddr | code/frcore/frcore_tcpflowrec.c:65-108 | a block in effect is kept; otherwise the one to be had is opened empty |
| Submission.SubmitAddr.SubmitDmaHeader | code/frcore/frcore_tcpflowrec.c:123-163 | the header names the packets in the block, and the block is let go |
| Submission.SubmitAddr.SubmitData | code/frcore/frcore_tcpflowrec.c:167-266 | for a packet of any length: it goes into the open block, or the first to be had, if its bytes do not reach its record there, else that block is closed under the caller's key and it goes into the second to be had; the cells byte for byte, the session after it, and NoBlock or an overrun exactly where they should be |
| Submission.SubmittedSays | code/frcore/frcore_tcpflowrec.c:167-266 | the specification that the protocol steps are compared with says the same |
| Submission.RunKeepsOrder | code/frcore/frcore_tcpflowrec.c:167-266 | over any run of submissions the closed blocks' packets and then the open one's are exactly the packets accepted, in order |
| BlockSteps.StepKeepsInv | code/frcore/frcore_chan.c:1015-1149 | every step of every core and of the host keeps the invariant, and the ring-full step is never possible |
| BlockSteps.AlwaysSpace | code/frcore/frcore_chan.c:1258-1332 | the completed ring always has room for what is being posted |
| BlockSteps.BlocksConserved | code/frcore/frcore_chan.c:1015-1332 | after any run each initial block is found in exactly one of the available ring, a cache, a session, a fifo's header cells, the completed ring and the host, and no other address anywhere |
| BlockSteps.NothingOverflows | code/frcore/frcore_chan.c:1258-1332 | nothing is found twice in its place, and the rings and fifos together never hold more than they have room for |
| BlockRefines.PostIsRun | code/frcore/frcore_chan.c:1514-1773 | posting a fifo in the transfers that the fifo object makes is a run of protocol steps, to just the state that the object reaches |
| BlockRefines.TakeIsRun | code/frcore/frcore_chan.c:1094-1149 | so is taking a block with its refill, the whole state after it given |
| BlockRefines.CloseIsRun | code/frcore/frcore_tcpflowrec.c:123-163 | so is closing a block |
| BlockRefines.SubmitIsRun | code/frcore/frcore_tcpflowrec.c:167-266 | so is submitting a packet to a closed session, to an open block with room, to a full one, with and without a refill and with no block to be had, the whole state after it given |
| CellMemory.PayloadKeptExactly | code/frcore/frcore_dma.h:143-152 | byte by byte: payloads of a length are all sent as they were queued if and only if the length is at most 1600 |
| CellMemory.Payload1601 | code/frcore/frcore_chan.c:1882-1887 | 1601 bytes replace the high byte of their own number, and something else is sent |
| BlockSteps.OverrunExactly | code/frcore/frcore_chan.c:1882-1887 | a run overruns a payload cell if and only if it submits a payload of more than 1600 bytes |
| BlockSteps.PublishedIsComplete | code/frcore/frcore_chan.c:1514-1773 | in every interleaving in which no payload submitted exceeds 1600 bytes, a published block has had exactly its packets' writes and then its header, nothing for it waits in any fifo, and it decodes to its packets |
| BlockOrder.ReceivedInOrder | code/frcore/frcore_chan.c:1514-1903 | end to end, over such a run: the packets of a session's blocks, in the order in which the host takes them, are the first of those submitted for the session, and the rest are on the ring, in the fifo and in the open block, in that order |
| BlockSteps.PublishedStays | code/frcore/frcore_chan.c:1705-1903 | until the host gives it back no step writes to a published block or moves it elsewhere |
| BlockSteps.HeaderIsLast | code/frcore/frcore_chan.c:1851-1903 | what is written of a block is always a prefix of what was recorded, header last |
| BlockSteps.PublishInv | code/frcore/frcore_chan.c:1705-1773 | publishing moves the header cells' blocks to the completed ring and keeps the invariant |
| BlockSteps.ScatterInv | code/frcore/frcore_chan.c:1514-1699 | a transfer of part of what is posted keeps the invariant |
| BlockSteps.HostCanReturn | code/include/frc_dma.h:688-712 | the available ring always has room for a block that the host holds |
| BlockSteps.HostCanTake | code/include/frc_dma.h:722-748 | the host can always take the first block that is on the completed ring |
| Rings.WindowParts | code/frcore/frcore_chan.c:1047-1070 | the two-part copy round the end of a ring is the window of places from its read index |
| Rings.WindowWritten | code/frcore/frcore_chan.c:1284-1316 | two-part writes at the write index come after what is on the ring |
| Rings.Ring.AvailGet | code/frcore/frcore_chan.c:1015-1092 | takes the first addresses in order, or none when there are too few |
| Rings.Ring.ComplPut | code/frcore/frcore_chan.c:1258-1332 | appends the addresses in order, or none when they do not fit |
| Rings.Ring.PutOne | code/include/frc_dma.h:688-712 | the host's put |
| Rings.Ring.GetOne | code/include/frc_dma.h:722-748 | the host's get |
| DriverPool.AvailInit | code/frcdrv/frcdrv_chan.c:311-343 | puts every block of every pool on the ring, in order and at its address, exactly when the ring has room |
| DriverPool.InitialBlocks | code/frcdrv/frcdrv_chan.c:311-343 | no two initial blocks overlap, and a permitted number of pools fits the ring |
| DriverPool.PoolSpan | code/frcdrv/frcdrv_chan.c:425-441 | the span told to the card covers every pool tightly |
| SsnFifo.SsnFifo.GetOneBlockAddr | code/frcore/frcore_chan.c:1094-1149 | succeeds if and only if cache or ring has an address; which address, which cache and which ring are left when the cache has one, and when the ring has 1000, 100 or at least 1 |
| SsnFifo.SsnFifo.PostPkt | code/frcore/frcore_chan.c:1514-1699 | the transfers are every write of every cell, once and in order, all full but the last; the blocks are those with a header among the cells |
| SsnFifo.SsnFifo.FifoPost | code/frcore/frcore_chan.c:1705-1847 | writes go out, then the blocks are published and the cells dropped, or kept when there is no room |
| SsnFifo.SsnFifo.FifoAdd | code/frcore/frcore_chan.c:1851-1903 | a cell is queued behind the others; it fails only when a full fifo could not be published, and overruns exactly when its payload exceeds 1600 bytes |
| CellMemory.IntactExactly | code/frcore/frcore_dma.h:81-87 | byte by byte, of the packets that the length test admits: each of staying whole behind the next cell, leaving the next cell whole and staying inside the DMA block holds if and only if the packet is at most 2008 bytes |
| CellMemory.Payload1937 | code/frcore/frcore_chan.c:542-589 | a payload of 1937 bytes is admitted, is damaged by the next packet, damages one that waits and leaves its block by a byte |
| SimpleChannel.SimpleFifo.FifoAdd | code/frcore/frcore_chan.c:542-589 | a packet is queued whole, as header, payload and record, if and only if there is room and its payload is at most 1936 bytes; between that and the length test it overruns its cell |
| SimpleChannel.SimpleFifo.AcceptedIntact | code/frcore/frcore_chan.c:542-589 | every packet queued so stays whole, leaves its neighbour whole and stays in its block |
| SimpleChannel.SimpleFifo.PostPkt | code/frcore/frcore_chan.c:290-348 | packet k is written to block k across chunks and ring wrap |
| SimpleChannel.SimpleFifo.PostCells | code/frcore/frcore_chan.c:210-424 | blocks taken, written and published one for one and in order |
| SimpleChannel.SimpleFifo.FifoPost | code/frcore/frcore_chan.c:431-539 | what is published so far is the front of what was accepted, each once, in order; when the ring is full the blocks taken are lost |
| SimpleChannel.SimpleFifo.Forward | code/frcore/frcore_chan.c:592-639 | the transfers handed on, what was published and which blocks were used, and that an accepted packet joins the order |
| SimpleProtocol.StepKeepsInv | code/frcore/frcore_chan.c:210-589 | every step of every core and of the host keeps the order of each fifo and the blocks together |
| SimpleProtocol.NeverFull | code/frcore/frcore_chan.c:350-424 | the completed ring always has room for what is being posted, so no block is lost |
| SimpleProtocol.ExactFifo | code/frcore/frcore_chan.c:431-539 | over any run packet k that a fifo accepted is in block k of all it ever took, each once and in order |
| SimpleProtocol.BlocksConserved | code/frcore/frcore_chan.c:210-424 | over any run the host takes the blocks in the order in which they were published, and none is made or lost |
| SimpleProtocol.PoolsFit | code/frcdrv/frcdrv_chan.c:311-343 | the driver's ten pools of 2048 are a start for such runs |
| SimpleProtocol.PostIsRun | code/frcore/frcore_chan.c:210-424 | posting a fifo is a run of those steps, to just the state that the fifo object reaches |
| TwoTupleRules.OrderExact | code/frcore/frcore_filter.c:609-800 | after any history the list has exactly the indexes whose last command set them, with that command's rule, in the order last set |
| TwoTupleRules.FindFromExact | code/frcore/frcore_filter.c:811-875 | types 1 to 4 compare source address, destination address, source port and destination port: no rule of an earlier type matches, and of its own type the rule found is the first that does; nothing is found exactly when nothing matches |
| TwoTupleRules.DeletedMembers | code/frcore/frcore_filter.c:481-515 | deleting takes an index out of its own bucket and leaves all others |
| TwoTupleRules.UpdatedMembers | code/frcore/frcore_filter.c:526-594 | setting appends an index to its own bucket and leaves all others |
| TwoTupleRules.BucketFinds | code/frcore/frcore_filter.c:811-875 | for any hash the first match in a bucket is the first match among all rules |
| TwoTupleRules.DepthsAddUp | code/frcore/frcore_filter.c:526-594 | the buckets together hold each rule once |
| TwoTupleRules.FewRules | code/frcore/frcore_filter.c:549-560 | there are never more rules than indexes, so the cell pool never runs out |
| HashIndex.DeleteAgrees | code/frcore/frcore_filter.c:729-800 | deleting keeps array, buckets, counts and pool in agreement |
| HashIndex.AddAgrees | code/frcore/frcore_filter.c:670-715 | adding finds a free cell and keeps them in agreement |
| HashIndex.IndexInOneBucket | code/frcore/frcore_filter.c:481-594 | an index is in a bucket exactly when it is enabled and the bucket is that of its type and hash, and there once |
| HashIndex.DepthsAreFilters | code/frcore/frcore_filter.c:481-594 | the bucket depths add up to the number of filters |
| HashIndex.LookupOverHistory | code/frcore/frcore_filter.c:811-875 | after any history the rule found was set last, matches, is of the earliest type that does and of these the least recently set; 0 exactly when no rule that is set matches |
| HashIndex.TwoTupleAcl.AclGetHashTable | code/frcore/frcore_filter.c:48-66 | a bucket for each type and hash in range, and no other |
| HashIndex.TwoTupleAcl.DeleteOneFilterFromHashTable | code/frcore/frcore_filter.c:481-515 | unlinks just the index's cell, or reports that there is none |
| HashIndex.TwoTupleAcl.AddOneFilterToHashTable | code/frcore/frcore_filter.c:526-594 | appends the index to the bucket that its array entry names |
| HashIndex.TwoTupleAcl.AclSetFilter | code/frcore/frcore_filter.c:609-718 | in range it always succeeds and is recorded as the latest command; out of range it changes nothing |
| HashIndex.TwoTupleAcl.AclDelFilter | code/frcore/frcore_filter.c:729-800 | deletes a set index, reports one that is not set or out of range |
| HashIndex.TwoTupleAcl.FilterLookupByTuple | code/frcore/frcore_filter.c:811-875 | searching four buckets finds just the rule that the history of commands says it should |
| Tuples.MatchesIsEquivalence | code/frcore/frcore_ssn_priv.h:27-31 | matching is being one flow up to direction, and sorting respects it |
| Tuples.SortsAlike | code/frcore/frcore_ssn.h:234-251 | both directions sort alike if and only if the addresses differ or the ports do not |
| Tuples.BothDirectionsMeet | code/frcore/frcore_ssn.h:263-280 | both directions go to one bucket under every hash if and only if the same holds |
| SessionTable.SessionTable.SsnLookupByTuple | code/frcore/frcore_ssn_priv.h:19-63 | finds the one session of a bucket that matches from either end, or says rightly that there is none |
| SessionTable.SessionTable.Unlink | code/frcore/frcore_ssn.c:138-155 | exactly one cell leaves its chain, and every other bucket is as it was |
| SessionTable.SessionTable.SsnPurgeSsn | code/frcore/frcore_ssn.c:107-175 | exactly the given session goes, from its bucket and no other |
| SessionTable.SessionTable.SsnPurgeSsnNolock | code/frcore/frcore_ssn.c:66-105 | the same for a session whose timer did not start |
| SessionTable.SessionTable.FindCell | code/frcore/frcore_ssn.c:214-256 | the embedded cell if it has no session, else one from the pool |
| SessionTable.SessionTable.SsnPrepare | code/frcore/frcore_ssn.c:178-280 | the exact condition for a session to be made, then exactly one more and how it starts; the count in every case; no other session touched |
| SessionTable.SessionTable.FrcoreTcpProcess | code/frcore/frcore_tcp.c:119-175 | a session is returned if and only if the bucket had one that matches or one can be made; which one, how a new one starts, what the packet does to an old one, the count in every case, and no other session touched |
| SessionTable.SessionTable.FrcoreSsnAgeProcess | code/frcore/frcore_tcp.c:185-232 | a session is purged exactly when its time is used up or no timer is to be had |
| SessionTable.SessionTable.OneSessionPerFlow | code/frcore/frcore_tcp.c:119-175 | no two sessions of the whole table are one flow, unless its ends share an address and not a port; and never two in a bucket |
| SessionTable.SessionTable.FoundFromBothEnds | code/frcore/frcore_tcp.c:119-175 | both directions of such a flow reach the same session |
| SessionTable.SessionTable.SessionPlaced | code/frcore/frcore_ssn.h:263-280 | every session is in the bucket of its key |
| SessionTable.OnlyMatch | code/frcore/frcore_ssn_priv.h:19-63 | at most one session of a bucket matches a tuple |
| SessionTable.SsnDirectionTuple | code/frcore/frcore_ssn.h:254-261 | positive exactly when the packet has the first packet's tuple |

## Left out

- Per-tag packet and byte counters of the classifier, which the tag indexes without a check: the shift loops move them by neighbouring tags, so they do not follow their rules.
- `acl_updatefiltertagid_by_stagid`, which shifts from a fixed index and has no caller here, and the text-command variants of the readers.
- Lookups while tables are being rebuilt, and lookups after a rebuild that failed half way.
- Class numbers of entries and free lists of the class list: no table read uses them.
- Machine words of the bitmaps are sequences of 32 bits rather than a bit-vector type; shifts, masks and their widths are the code's.
- 64-bit ring and fifo indexes are unbounded: their wrap at 2^64 is not modelled.
- DMA failures and timeouts: every transfer succeeds, and the back-off after a failed refill or an exhausted ring is an arbitrary choice.
- The byte swap of 64-bit words on the PCI bus: blocks are read back in the layout in which they were written.
- The rule channel, which differs from the simple channel by two tag bytes.
- Sequence numbers that wrap, SYN segments that carry data, and delivery order across separate flushes, of which the code keeps no record.
- What the expected number means between acknowledgements: ReassemblyOutcome.ReceiveSays says what it becomes, and a covering segment can leave it inside an entry.
- What else is in memory after an overrun of a cell, a class list or the filter array: beyond CellMemory the model stops there.
- How an entry emitted by the reassembly is turned into a packet with its record: the two parts are joined only in that the one's output is the other's input.
- The exactness of the count of active sessions when the pool answers with a foreign cell or a timer does not start: the code does not undo the count there, and the model does as it does.
- ClassBounds.RulesFit: one way only; whether other rules overrun depends on which combinations of their values meet, and compiling is what finds that out.
- Transfers to the fifo from Submission succeed, as BlockSteps.AlwaysSpace shows they do.
- ThreeBounds.KeptHasFewest: one way only; the exact condition, on the order kept itself, is SplitOrder.FewestCells.
- BlockSteps.StepKeepsInv: a fifo's lock is released between posting a full fifo and adding to it, which allows more interleavings than the code has.
- BlockProtocol's constant for the writes of one transfer, whose header is not part of this model, is taken from a comment; no proof depends on its value.
- Reassembly queues, hash buckets and fifo caches are sequences in their objects; the pointer form is in BsdList and, for the session chains, in SessionTable.
- frcapi, frctweak, the network driver, command registration, statistics dumps, VLAN tables, timestamps and MAC fields: wrappers, input and output.
