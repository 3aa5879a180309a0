# Verified models of the testbed's protocol and query code

This project models, in Dafny, the parts of the repository whose correctness is
least visible from any single function, and proves what they keep. Each module
follows one source file or component.

| files | what they model |
|---|---|
| `Deluge.dfy`, `DelugeHandlers.dfy`, `DelugeSpread.dfy`, `DelugeNode.dfy` | Deluge dissemination: a system of nodes and messages in flight, what a node makes of each message, which upgrades spread, and one node's object updated in place by its handlers |
| `MaxHeap.dfy`, `MaxHeapCache.dfy`, `MaxHeapIndex.dfy` | the MaxHeap index: a tree of hash intervals in an array and its buckets, lookups through the bucket cache, and the index updated in place |
| `Lvm.dfy`, `LvmCode.dfy`, `LvmMachine.dfy` | LogicVM: condition trees, their bytecode, execution and range derivation on arbitrary bytes, and the machine that emits and runs them |
| `Where.dfy`, `WhereChains.dfy` | the code-emitting parsers of AQL's WHERE clause, and what any clause does when it runs |
| `InlineIndex.dfy`, `Selection.dfy`, `Query.dfy`, `Join.dfy` | the inline index, SELECT with or without it, a whole query from its clause to its rows, and the resumable JOIN |
| `Crc16.dfy`, `Slip.dfy`, `Hci.dfy` | the LoRa modem link: CRC-16 (RFC 1662, Appendix C.2), SLIP framing (RFC 1055), message posting and dispatch |
| `CoapOption.dfy`, `Coap.dfy`, `CoapMeaning.dfy`, `CoapMachine.dfy`, `CoapParser.dfy`, `CoapExchange.dfy` | the CoAP codec (RFC 7252, sections 3 and 3.1; RFC 7959, section 2.2): wire format, what any message is parsed as, serializer, the parser that merges strings inside the buffer it reads, and both in turn |
| `WellKnownCore.dfy` | the `/.well-known/core` handler |
| `Transactions.dfy`, `TransactionEnds.dfy`, `TransactionMessages.dfy`, `TransactionPool.dfy` | CoAP retransmission (RFC 7252, section 4.2): the operations, over whole runs what ends a transaction and when its messages are sent, and the pool updated in place |
| `Common.dfy` | fixed-width integers and small helpers |

Where the source works by changing things step by step, the module has two
layers: methods (on classes with the source's fields, or on arrays) whose
postconditions equate the new state with a function of the old one, and lemmas
about that function over all inputs or all runs. Protocols are state machines
over their steps; losing, duplicating and reordering messages and the expiry of
timers are steps of the environment. Widths are those of the 16-bit TelosB
target: enums and size_t have two bytes, a long has four, and every truncation
or wrap-around that a modelled path can reach is written out.

Inputs the program cannot handle safely have a result of their own in the
models: `Beyond` and `OutOfCode` for bytecode that would be read behind its
end, `Stray` for a CoAP message that would be read behind its end or would set
a bit behind the option bitmap. Methods require that this is not the outcome.

`dafny verify dfyconfig.toml` checks the whole project.

## Where the code differs from what it is meant to do

Some expected properties do not hold of the code. For each, a lemma gives the
exact condition under which it does, or an input that shows it does not.

- Deluge: the dispatcher compares a profile's length with the number of pages
  times the first entry of its version vector, and the packet buffer cuts a
  longer message off without an error, so only upgrades to version 1 whose
  profile fits it are ever completed: at most 124 pages with its 128 bytes, fewer
  on a link that carries less (`DelugeSpread.CompletesIff`, `BufferDecides`). The
  number of the page to be sent is kept in a signed byte, which would be the next
  limit, at 128 pages. A packet is copied before its CRC is tested, so a damaged
  packet can end up in a page marked complete (`SpoiledPageIff`, `SpoiledIff`).
  The request timer may outlive the last page (`OverrunsIff`). A node in mid-
  upgrade labels old pages with the new version (`OldRequestIff`); this needs an
  upgrade to version 2 or higher, which the length test prevents as messages are
  sent, and `UpgradesMix` gives a run in which the test is passed.
- LogicVM: a comparison with the constant on the left derives the range that
  belongs to the comparison with its sides exchanged (`Lvm.SoundCmpIff`), and OR
  keeps a restriction that only one side has (`Lvm.JoinsSoundIff`). A comparison
  refused for its operator has already overwritten the bounds of its variable
  (`LvmMachine.Machine.Derive`).
- AQL: AND and OR have no precedence and group to the right
  (`Where.PrecedenceTreeIff`, `Where.PrecedenceTruthIff`); a side with two or
  more operators is miscompiled (`Where.SideCodeIff`,
  `WhereChains.ComparisonCompilesTo`); which of these clauses still run, and with
  what outcome, is `WhereChains.ClauseExecutes`.
- Index selection: the test for the smallest range always succeeds, so the last
  range wins (`Selection.Handle.SelectIndex`). Bounds are stored as long and
  read as int, so one-sided ranges lose rows (`Selection.RelationAnswerIff`). A
  search for a single value that no row has ends with an index error
  (`Selection.Handle.Select`), also when the range has more than that value.
- JOIN: over an inline index a join is served exactly when no left value is below
  the right column's first value (`Join.InlineServesIff`).
- MaxHeap: appending does not refresh the bucket cache, so lookups miss stored
  pairs, and one for key 0 may take an empty slot for an entry
  (`MaxHeapCache.AnswerIff`, `MissIff`, `HitWasAccepted`, `StaleCopy`). Buckets of
  the ninth level are created but never used (`MaxHeap.InsertRefusedIff`).
- SLIP: an encoding that does not fit is truncated without an error
  (`Slip.ComSlip.EncodeData`), and such a message is never delivered
  (`Hci.DeliveredIff`).
- CoAP: strings with a leading separator or an odd number of trailing ones
  change (`CoapOption.TextSurvivesIff`); an empty message announces a token it
  does not carry (`Coap.EmptyMessage`). Behind a header that fills the space
  reserved for it, the payload marker overwrites the first byte of a payload that
  lies in the buffer (`CoapMachine.InPlaceIff`).
- Transactions: a new transaction inherits its slot's callback
  (`Transactions.StaleCallback`, `OwnCallbackIff`). The fifth message is
  followed at once by giving up, without waiting for its answer (`RunSafe`).
  A datagram that cannot be parsed frees whatever transaction uses the slot of the
  request parsed last (`TransactionEnds.RefusalFreesIff`, `SilentIff`).
  The first interval starts at 385 ticks instead of 384, because the backoff
  macro is not parenthesised.

## Model

| member | source | states |
|---|---|---|
| Deluge.RunSafe | telosb-testbed/apps/deluge/deluge.c:291-579 | In every reachable state of every run, whatever is lost, duplicated or reordered: a page marked complete at the new version holds the new image's page, and a node at the new version holds the whole new image |
| Deluge.StepKeepsInv | telosb-testbed/apps/deluge/deluge.c:104-579 | Every handler, timer and channel step keeps nodes and messages in flight consistent with the upgrade |
| Deluge.RunContinues | telosb-testbed/apps/deluge/deluge.c:104-579 | A run is never stuck: any enabled step extends it |
| Deluge.Highest | telosb-testbed/apps/deluge/deluge.c:226-237 | The result is the length of the complete prefix of the page table |
| Deluge.Transition | telosb-testbed/apps/deluge/deluge.c:104-121 | Changing state touches timers and mode only, never image, pages or buffer |
| Deluge.Patch | telosb-testbed/apps/deluge/deluge.c:453-455 | Copying a payload into the page buffer replaces exactly one slot |
| Deluge.HandleSummary | telosb-testbed/apps/deluge/deluge.c:291-344 | A summary never changes image, versions or received packets |
| Deluge.HandleRequest | telosb-testbed/apps/deluge/deluge.c:398-428 | A request never changes image, versions or received packets |
| Deluge.PacketProgress | telosb-testbed/apps/deluge/deluge.c:431-497 | A packet raises the count of complete pages and received packets by one if it is fresh, and leaves it alone otherwise |
| Deluge.ProfileProgress | telosb-testbed/apps/deluge/deluge.c:524-579 | A profile never loses received pages or packets |
| Deluge.ProgressNeverFalls | telosb-testbed/apps/deluge/deluge.c:104-579 | No step of any node lowers any node's progress |
| Deluge.BufferFills | telosb-testbed/apps/deluge/deluge.c:453-484 | When the last packet of a page arrives, the buffer is the new image's page |
| Deluge.StreamKeepsGains | telosb-testbed/apps/deluge/deluge.c:431-497 | Packets of the new image in any order, any number of times, never undo what has been received |
| Deluge.CoveringStreamCompletesPage | telosb-testbed/apps/deluge/deluge.c:431-497 | A stream containing every packet of the image completes at least the page in progress |
| Deluge.UpgradeCompletes | telosb-testbed/apps/deluge/deluge.c:431-497 | Hearing the image once per missing page, in any order, finishes the upgrade |
| DelugeHandlers.SummaryIff | telosb-testbed/apps/deluge/deluge.c:291-344 | A summary makes a node ask its sender exactly when it is of the version the node is to have, stays within the page table and covers a missing page, and the node is not hushed; counters, inconsistency and the wish for a profile change exactly as its version and pages differ |
| DelugeHandlers.SummaryHeardIff | telosb-testbed/apps/deluge/deluge.c:269-344 | One node hearing the summary of another asks it exactly when both are to have the same version and the other has a page, and all before it, that is missing here |
| DelugeHandlers.RequestAsksMissing | telosb-testbed/apps/deluge/deluge.c:240-256 | A request asks whom the last accepted summary came from for exactly the packets of the page in progress that are missing |
| DelugeHandlers.RequestsEnd | telosb-testbed/apps/deluge/deluge.c:258-266 | The second request in a row is the last one |
| DelugeHandlers.RequestIff | telosb-testbed/apps/deluge/deluge.c:398-428 | A request is taken up exactly when the node has its version, the page and all pages before it; it adds to the transmit set of the page being sent and replaces that of another page |
| DelugeHandlers.RequestsServed | telosb-testbed/apps/deluge/deluge.c:347-428 | After any number of requests for one page, the timer sends every packet of it asked for by one of them, or still to be sent of it before, and no other |
| DelugeHandlers.ServedAlone | telosb-testbed/apps/deluge/deluge.c:376-428 | Once they are sent nothing is left over, so that a later request is served alone |
| DelugeHandlers.PacketNoted | telosb-testbed/apps/deluge/deluge.c:431-449 | Only packets of the page in progress are looked at; one of another version is noted |
| DelugeHandlers.ProfileIff | telosb-testbed/apps/deluge/deluge.c:524-579 | A profile of a newer version renews exactly the pages it has a newer version of, and reception starts at the first page that is not complete |
| DelugeHandlers.ProfileHeard | telosb-testbed/apps/deluge/deluge.c:500-579 | One node hearing the profile of another takes over its version and the newer versions of its pages |
| DelugeHandlers.ChecksumDivides | telosb-testbed/core/lib/crc16.c:46-75 | A step of the packet checksum adds the byte and divides by the CCITT polynomial eight times, bit by bit |
| DelugeSpread.ProfileAcceptedIff | telosb-testbed/apps/deluge/deluge.c:500-615 | A profile, cut to what the link carries, passes the dispatcher's length test exactly when the first page's version is 0 and its header arrives, or that version is 1 and it arrives whole |
| DelugeSpread.RunBound | telosb-testbed/apps/deluge/deluge.c:104-615 | In every run with messages as they are sent, over a link of any capacity: a node that starts with the new version never receives a page; one that starts with the old version never leaves it unless the new one is 1 and its profile fits the link, receives no page if a packet does not fit, none behind the 128th, and, with a single page, has its request timer running only while it is receiving |
| DelugeSpread.Introduction | telosb-testbed/apps/deluge/deluge.c:256-344 | A run in which a node adopts the new version from a profile and hears a summary before it asks: requests go to the sender of the last accepted summary |
| DelugeSpread.ServePages | telosb-testbed/apps/deluge/deluge.c:240-615 | A run, for every image at version 1 whose profile and packets fit the link and any old file, of at most 128 pages: one node serves another page after page |
| DelugeSpread.CompletesIff | telosb-testbed/apps/deluge/deluge.c:240-615 | Some run with messages as they are sent takes a node from the old version, with whatever old file, to the new version and the whole new image exactly when the new version is 1, its profile and its packets fit the link, and the image has at most 128 pages |
| DelugeSpread.BufferDecides | telosb-testbed/core/net/packetbuf.c:92-102 | With a packet buffer of at most 128 bytes these conditions come to: version 1, packets that fit, and a profile that fits, so at most 124 pages; the signed page number is never the limit |
| DelugeSpread.OverrunsIff | telosb-testbed/apps/deluge/deluge.c:240-497 | Some such run leaves a node whose request timer runs with no page left to ask for, so that the program would read behind its page table, exactly when the upgrade can be completed and has at least 2 pages |
| DelugeSpread.CorruptPacketIff | telosb-testbed/apps/deluge/deluge.c:453-460 | A packet failing its CRC leaves the buffer right exactly when its slot had not been received or the payload is right anyway: the payload is copied before the test |
| DelugeSpread.SpoiledPageIff | telosb-testbed/apps/deluge/deluge.c:453-484 | If the packet completing the page comes next, the page is stored, marked complete and new; it is the image's page exactly when the completing packet overwrites the damaged slot or the damaged payload was right anyway |
| DelugeSpread.SpoiledIff | telosb-testbed/apps/deluge/deluge.c:431-497 | In some such run one damaged copy of a packet in flight, followed by a packet as it was sent, leaves a node claiming the new version with a wrong image, exactly when the upgrade can be completed |
| DelugeSpread.OldRequestIff | telosb-testbed/apps/deluge/deluge.c:347-428 | A node in mid-upgrade that answers a request for its old version sends only right packets exactly when it sends none, its page being behind the 128th, or the two images agree on the requested packets |
| DelugeSpread.PagePacketsIff | telosb-testbed/apps/deluge/deluge.c:347-373 | The packets a page is sent as are right exactly when the file holds the new image in every requested slot |
| DelugeSpread.UpgradesMix | telosb-testbed/apps/deluge/deluge.c:240-615 | A run with two upgrades under way, for profiles received long enough to pass the length test: a node ends at the second version with the first image |
| DelugeNode.Object.constructor | telosb-testbed/apps/deluge/deluge.c:191-223 | Every page of the file is complete at its version |
| DelugeNode.Object.TransitionTo | telosb-testbed/apps/deluge/deluge.c:104-121 | Refines Transition in place |
| DelugeNode.Object.HighestAvailablePage | telosb-testbed/apps/deluge/deluge.c:226-237 | Returns the length of the complete prefix |
| DelugeNode.Object.HandleSummary | telosb-testbed/apps/deluge/deluge.c:291-344 | Updates the object as the model of the whole handler says |
| DelugeNode.Object.HandleRequest | telosb-testbed/apps/deluge/deluge.c:398-428 | Updates the object as the model of the whole handler says |
| DelugeNode.Object.HandlePacket | telosb-testbed/apps/deluge/deluge.c:431-497 | Updates the object as the model of the whole handler says |
| DelugeNode.Object.StorePacket | telosb-testbed/apps/deluge/deluge.c:453-497 | Copies, checks and counts one packet in place as modelled |
| DelugeNode.Object.PageDone | telosb-testbed/apps/deluge/deluge.c:468-497 | Stores a completed page and moves on as modelled |
| DelugeNode.Object.CrcOf | telosb-testbed/apps/deluge/deluge.c:456-458 | The loop computes the CRC of the payload |
| DelugeNode.Object.HandleProfile | telosb-testbed/apps/deluge/deluge.c:524-579 | Updates the object as the model of the whole handler says |
| DelugeNode.Object.SendRequest | telosb-testbed/apps/deluge/deluge.c:240-266 | Emits the request for the missing packets of the page in progress |
| DelugeNode.Object.SendPage | telosb-testbed/apps/deluge/deluge.c:347-373 | Emits exactly the packets of the transmit set |
| DelugeNode.Object.TxCallback | telosb-testbed/apps/deluge/deluge.c:376-395 | Sends the page in transmission and clears its set |
| DelugeNode.Object.AdvertiseSummary | telosb-testbed/apps/deluge/deluge.c:269-288 | Emits the summary of the object |
| DelugeNode.Object.SendProfile | telosb-testbed/apps/deluge/deluge.c:500-521 | Emits the version vector |
| DelugeNode.Object.CommandDispatcher | telosb-testbed/apps/deluge/deluge.c:582-615 | Routes a message by its command and length as modelled |
| MaxHeap.LiveNodeWidth | telosb-testbed/apps/antelope/index-maxheap.c:226-292 | A live node at depth d covers exactly 2^(16-d) hash values, and its parent is live; so none of the nine levels looks empty |
| MaxHeap.PathIsAcceptors | telosb-testbed/apps/antelope/index-maxheap.c:263-292 | The buckets a lookup visits are exactly the live inner nodes whose interval contains the hash |
| MaxHeap.PathLength | telosb-testbed/apps/antelope/index-maxheap.c:263-292 | A lookup path has at most eight nodes |
| MaxHeap.SlotReaches | telosb-testbed/apps/antelope/index-maxheap.c:226-259 | Inserting an interval enclosed by a live node walks down to that node's first child, wherever it starts |
| MaxHeap.VisitsBesideRoute | telosb-testbed/apps/antelope/index-maxheap.c:226-259 | On the way it reads only ancestors of the node and their left siblings |
| MaxHeap.LowHalfSlot | telosb-testbed/apps/antelope/index-maxheap.c:417-445 | The low half of a split lands on the first child, or nowhere once that is taken |
| MaxHeap.HighHalfSlot | telosb-testbed/apps/antelope/index-maxheap.c:417-445 | The high half then lands on the second child |
| MaxHeap.SplitKeepsTree | telosb-testbed/apps/antelope/index-maxheap.c:417-445 | A split keeps the tree invariant and every existing node |
| MaxHeap.RoomHolds | telosb-testbed/apps/antelope/index-maxheap.c:448-492 | The bucket chosen for an insert has room and lies on the path of the key's hash; no entry leaves its path |
| MaxHeap.InsertEffect | telosb-testbed/apps/antelope/index-maxheap.c:448-492 | An insert appends exactly one entry to one bucket on the key's path, or stores nothing |
| MaxHeap.InsertRefusedIff | telosb-testbed/apps/antelope/index-maxheap.c:448-492 | An insert is refused exactly when the key's deepest bucket is full and lies in the eighth level |
| MaxHeap.RunConservesPairs | telosb-testbed/apps/antelope/index-maxheap.c:448-492 | After any run of inserts the buckets hold exactly the accepted pairs, with multiplicity |
| MaxHeap.LookupAfterRun | telosb-testbed/apps/antelope/index-maxheap.c:448-750 | After any run a lookup fails exactly when no pair with the key was accepted, and otherwise returns a value accepted under it |
| MaxHeap.SearchFindsOldest | telosb-testbed/apps/antelope/index-maxheap.c:715-750 | Of several pairs with a key, the search gives the oldest one in the deepest bucket that has one |
| MaxHeap.NextOnPath | telosb-testbed/apps/antelope/index-maxheap.c:263-292 | Calling heap_find again from the children of its last result enumerates the path and then fails |
| MaxHeapCache.ReadAfresh | telosb-testbed/apps/antelope/index-maxheap.c:352-392 | A lookup whose deepest bucket is not the cached one reads every bucket of its path as it is stored |
| MaxHeapCache.HistoryKeeps | telosb-testbed/apps/antelope/index-maxheap.c:352-414 | After any history of inserts and lookups the cached copy begins with the slots that were in use when it was made; whatever it has behind them was accepted once or is an empty slot |
| MaxHeapCache.AnswerIff | telosb-testbed/apps/antelope/index-maxheap.c:352-750 | After any history the next lookup gives what is stored exactly when the cached bucket is not the deepest of the key's path, or the copied slots have the key, or what was stored there since and what is searched in its place lead to the same result |
| MaxHeapCache.MissIff | telosb-testbed/apps/antelope/index-maxheap.c:352-750 | A lookup fails exactly when the key was never accepted or, with the deepest bucket of its path cached, when neither the searched slots of the copy nor the buckets above have it |
| MaxHeapCache.HitWasAccepted | telosb-testbed/apps/antelope/index-maxheap.c:352-750 | Every hit was accepted under its key, except that key 0 may be answered with 0 |
| MaxHeapCache.StaleCopy | telosb-testbed/apps/antelope/index-maxheap.c:352-414 | Three operations after which a stored pair is not found and key 0, never inserted, is |
| MaxHeapIndex.Index.constructor | telosb-testbed/apps/antelope/index-maxheap.c:495-585 | A fresh index holds nothing and satisfies the invariant |
| MaxHeapIndex.Index.HeapInsert | telosb-testbed/apps/antelope/index-maxheap.c:226-259 | Writes the node the walk leads to, and nothing else |
| MaxHeapIndex.Index.HeapFind | telosb-testbed/apps/antelope/index-maxheap.c:263-292 | Returns the next bucket of the path or fails |
| MaxHeapIndex.Index.BucketSplit | telosb-testbed/apps/antelope/index-maxheap.c:417-445 | Adds both halves, or refuses, leaving all buckets alone |
| MaxHeapIndex.Index.BucketAppend | telosb-testbed/apps/antelope/index-maxheap.c:395-414 | Appends one pair to one bucket |
| MaxHeapIndex.Index.FindBottom | telosb-testbed/apps/antelope/index-maxheap.c:448-468 | The loop ends at the deepest bucket of the path |
| MaxHeapIndex.Index.InsertItem | telosb-testbed/apps/antelope/index-maxheap.c:448-492 | Refines the modelled insert |
| MaxHeapIndex.Index.BucketRead | telosb-testbed/apps/antelope/index-maxheap.c:332-350 | Reads the first slots of a bucket over the front of the cache entry |
| MaxHeapIndex.Index.BucketLoad | telosb-testbed/apps/antelope/index-maxheap.c:352-392 | Reads a bucket into the only cache entry unless its number is already there |
| MaxHeapIndex.Index.CollectPath | telosb-testbed/apps/antelope/index-maxheap.c:690-714 | Collects the path, root first |
| MaxHeapIndex.Index.SearchBackwards | telosb-testbed/apps/antelope/index-maxheap.c:715-750 | Searches the path from the deepest bucket up |
| MaxHeapIndex.Index.GetNext | telosb-testbed/apps/antelope/index-maxheap.c:669-750 | The first result of an equality lookup and the cache it leaves, as the model of the search gives them |
| MaxHeapIndex.Index.Perform | telosb-testbed/apps/antelope/index-maxheap.c:448-750 | An insert or a lookup takes the index and its cache to where the history continues |
| LvmCode.ExecuteEncoded | telosb-testbed/apps/antelope/lvm.c:119-298 | Executing the code of any condition tree, whatever follows it, gives the tree's value or its first error; without an error the pointer ends at the code's length |
| LvmCode.ArgumentEncoded | telosb-testbed/apps/antelope/lvm.c:166-219 | The same for every arithmetic argument inside it, at any position |
| LvmCode.SubConditionEncoded | telosb-testbed/apps/antelope/lvm.c:222-298 | The same for every condition inside it, at any position |
| LvmCode.DeriveEncoded | telosb-testbed/apps/antelope/lvm.c:583-689 | Deriving from the code gives the ranges defined on the tree, or fails when those are undefined |
| Lvm.ComputeResults | telosb-testbed/apps/antelope/lvm.c:196-219 | For any two longs an operation gives the long that has the low 32 bits of their sum, difference or product; division truncates towards zero, wraps around in the one case of overflow, and fails exactly for zero |
| LvmCode.OperationRuns | telosb-testbed/apps/antelope/lvm.c:166-219 | Running the code of an operation on two expressions with values gives that long, or that error, and ends behind the code |
| LvmCode.EvalExprMeans | telosb-testbed/apps/antelope/lvm.c:166-219 | On any code: the first error of the two arguments, or what the operator's code says of their values |
| LvmCode.EvalLogicMeans | telosb-testbed/apps/antelope/lvm.c:222-298 | On any code: the first error of the arguments, or 1 or 0 as the code of the relation or connective says |
| LvmCode.ArgumentMeans | telosb-testbed/apps/antelope/lvm.c:130-185 | What an argument position holds, by its words; an operand of unknown type is zero |
| LvmCode.ConditionMeans | telosb-testbed/apps/antelope/lvm.c:222-404 | What a condition position and the start of the code must be, and which error it is otherwise |
| Lvm.ConstantsDerive | telosb-testbed/apps/antelope/lvm.c:628-684 | A comparison of two numbers derives a range exactly when the low byte of the second is a variable's identifier; for that variable |
| Lvm.SoundCmpIff | telosb-testbed/apps/antelope/lvm.c:583-684 | A comparison derives a range that keeps every accepted value exactly when the variable is on the left, or in the listed harmless cases |
| Lvm.MeetsExact | telosb-testbed/apps/antelope/lvm.c:497-537 | The intersection admits exactly what both sides admit |
| Lvm.JoinsSoundIff | telosb-testbed/apps/antelope/lvm.c:540-580 | The union admits what either side admits exactly when no variable is restricted by one side only |
| Lvm.JoinAdmits | telosb-testbed/apps/antelope/lvm.c:540-580 | In that case, each assignment admitted by a side is admitted by the union |
| Lvm.DeriveSound | telosb-testbed/apps/antelope/lvm.c:583-689 | If that holds at every node, every assignment the condition accepts lies in the derived ranges |
| Lvm.DeriveExact | telosb-testbed/apps/antelope/lvm.c:583-689 | For conjunctions of comparisons with the variable on the left and no overflow the ranges are the condition |
| Lvm.OrSoundIff | telosb-testbed/apps/antelope/lvm.c:540-684 | For a disjunction of two such conditions that can both be met, the derived ranges keep every accepted assignment exactly when no variable is restricted on one side only |
| Lvm.CondValue | telosb-testbed/apps/antelope/lvm.c:222-298 | The only error of a well-formed condition is a division by zero |
| LvmMachine.Machine.constructor | telosb-testbed/apps/antelope/lvm.c:301-312 | An empty machine with no variables set and nothing derived |
| LvmMachine.Machine.GetOperand | telosb-testbed/apps/antelope/lvm.c:130-163 | Reads one operand and its value |
| LvmMachine.Machine.EvaluateExpr | telosb-testbed/apps/antelope/lvm.c:166-219 | Refines the evaluation of arithmetic on arbitrary code |
| LvmMachine.Machine.EvaluateLogic | telosb-testbed/apps/antelope/lvm.c:222-298 | Refines the evaluation of conditions on arbitrary code |
| LvmMachine.Machine.Execute | telosb-testbed/apps/antelope/lvm.c:380-404 | Refines execution on arbitrary code, with the final pointer |
| LvmMachine.Machine.CreateIntersection | telosb-testbed/apps/antelope/lvm.c:497-537 | The loop computes the intersection |
| LvmMachine.Machine.CreateUnion | telosb-testbed/apps/antelope/lvm.c:540-580 | The loop computes the union |
| LvmMachine.Machine.DeriveRelation | telosb-testbed/apps/antelope/lvm.c:583-684 | Refines derivation on arbitrary code, writing into the ranges it is given, also when a comparison is refused for its operator |
| LvmMachine.Machine.SetBounds | telosb-testbed/apps/antelope/lvm.c:652-681 | Sets the bounds of one variable to all numbers, then to those of the relation; refuses other operators |
| LvmMachine.Machine.Derive | telosb-testbed/apps/antelope/lvm.c:687-689 | Writes the derived ranges over the earlier ones; a comparison refused for its operator leaves all numbers as the bounds of its variable and nothing else changed |
| LvmMachine.Machine.SetOp | telosb-testbed/apps/antelope/lvm.c:407-412 | Appends one operator |
| LvmMachine.Machine.SetRelation | telosb-testbed/apps/antelope/lvm.c:415-420 | Appends one relation |
| LvmMachine.Machine.SetOperand | telosb-testbed/apps/antelope/lvm.c:423-428 | Appends one operand |
| LvmMachine.Machine.EmitCond | telosb-testbed/apps/antelope/lvm.c:407-438 | Emitting a tree appends exactly its encoding |
| LvmMachine.Machine.EmitAndExecute | telosb-testbed/apps/antelope/lvm.c:372-438 | Emitting a tree and executing it returns the tree's value |
| Where.WhereCodeIff | telosb-testbed/apps/antelope/aql-parser.c:402-447 | The bytes left by compiling a clause are the encoding of the right-nested tree exactly when every side has at most one operator |
| Where.SideCodeIff | telosb-testbed/apps/antelope/aql-parser.c:290-348 | The same for one side of a comparison |
| Where.CmpCodeIff | telosb-testbed/apps/antelope/aql-parser.c:350-400 | The same for one comparison |
| Where.WhereExecutes | telosb-testbed/apps/antelope/aql-parser.c:402-447 | For such clauses execution returns the tree's value |
| WhereChains.ComparisonCompilesTo | telosb-testbed/apps/antelope/aql-parser.c:290-400 | What any comparison compiles to: the encoding of a tree in which the further operators of the left side act on the right side, and, left over behind it, the further operators of the right side |
| WhereChains.ClauseExecutes | telosb-testbed/apps/antelope/aql-parser.c:290-447 | What running any clause gives, chains of operators included, and where it ends: the values of those trees, combined, or an error at the first comparison that fails or has something left over in front of a connective |
| WhereChains.FailsIff | telosb-testbed/apps/antelope/aql-parser.c:290-447 | A clause fails exactly when one of its comparisons does or, in front of a connective, has more than one operator on its right side |
| WhereChains.SimpleComparisonRuns | telosb-testbed/apps/antelope/aql-parser.c:350-400 | Running a comparison without chains compares the results of its left and its right side, in this order |
| Where.PrecedenceTreeIff | telosb-testbed/apps/antelope/aql-parser.c:402-447 | The clause is compiled to the tree in which AND binds tighter than OR exactly when no AND is followed by an OR |
| Where.PrecedenceTruthIff | telosb-testbed/apps/antelope/aql-parser.c:402-447 | The compiled clause and that tree agree for all truth values of the comparisons under the same condition |
| Where.ClauseValue | telosb-testbed/apps/antelope/aql-parser.c:402-447 | What the compiled tree of any clause comes to, from the truth values and errors of its comparisons |
| Where.PrecedenceValue | telosb-testbed/apps/antelope/aql-parser.c:402-447 | The same for the tree in which AND binds tighter |
| Where.HeadsMakeWhereCode | telosb-testbed/apps/antelope/aql-parser.c:402-447 | The code grows by inserting one connective header per link in front of the last comparison |
| WhereParser.JumpToOperand | telosb-testbed/apps/antelope/lvm.c:315-327 | Leaves room for a header, or reports an error |
| WhereParser.SetEnd | telosb-testbed/apps/antelope/lvm.c:357-369 | Moves the end within the buffer |
| WhereParser.ShiftForOperator | telosb-testbed/apps/antelope/lvm.c:330-348 | Moves the code behind a position up by one header |
| WhereParser.ParseExpr | telosb-testbed/apps/antelope/aql-parser.c:290-348 | Leaves the code of one side at the end |
| WhereParser.FillRelation | telosb-testbed/apps/antelope/aql-parser.c:384-392 | Writes a relation into the room left for it and goes back behind the code |
| WhereParser.ParseComparison | telosb-testbed/apps/antelope/aql-parser.c:350-400 | Leaves the code of one comparison at the end |
| WhereParser.ParseLink | telosb-testbed/apps/antelope/aql-parser.c:414-441 | Puts a connective in front of the last comparison |
| WhereParser.ParseWhere | telosb-testbed/apps/antelope/aql-parser.c:402-447 | Leaves the code of the whole clause |
| InlineIndex.SearchFinds | telosb-testbed/apps/antelope/index-inline.c:103-151 | The search stays inside the rows exactly when the target is not below the first value; it then stops next to the target, and at it exactly when it is present |
| InlineIndex.SearchBrackets | telosb-testbed/apps/antelope/index-inline.c:118-140 | The loop invariant behind this: smaller values before, larger behind |
| InlineIndex.RangeBracketed | telosb-testbed/apps/antelope/index-inline.c:153-181 | The enumerated rows contain every row of the range and at most one other row at each end |
| InlineIndex.SearchReachesLast | telosb-testbed/apps/antelope/index-inline.c:118-140 | Rightward the search gets to the last row whenever the target is behind the last but one |
| InlineIndex.SearchReachesFirstIff | telosb-testbed/apps/antelope/index-inline.c:118-140 | Leftward it ends at the first of two neighbours exactly when the number of rows halves that way |
| InlineIndex.BinarySearch | telosb-testbed/apps/antelope/index-inline.c:103-151 | The loop, with unsigned bounds, ends where the model says and refuses a missed exact match |
| Selection.ProjectProjects | telosb-testbed/apps/antelope/relation.c:783-812 | The projected row has one value per stored attribute, at the position the attribute has among these |
| Selection.AcceptsIff | telosb-testbed/apps/antelope/relation.c:783-843 | A row is accepted exactly when the condition is true whenever its variables have the row's values |
| Selection.SelectedHandsOut | telosb-testbed/apps/antelope/relation.c:734-847 | The answer of a scan: exactly the rows of which the condition is true, in order, each as its stored attributes |
| Selection.Plan.DeliveredRows | telosb-testbed/apps/antelope/relation.c:630-847 | What a query delivers, through an index or not: exactly the rows it looks at of which the condition is true, in order, each as its stored attributes |
| Selection.IndexGivesScan | telosb-testbed/apps/antelope/relation.c:630-709 | With soundly derived ranges whose bounds survive the conversion to int, the rows the index visits give the answer of the full scan, in the same order |
| Selection.SelectedWithinIff | telosb-testbed/apps/antelope/relation.c:734-825 | Rows may be left out at both ends exactly when none of them is accepted |
| Selection.IndexAnswerIff | telosb-testbed/apps/antelope/relation.c:734-825 | A query through the index answers like the scan exactly when no row it leaves out is accepted; for any condition |
| Selection.RangeAnswerIff | telosb-testbed/apps/antelope/relation.c:630-825 | For a range derived from conditions on one variable: exactly when no row left out has its value in the range |
| Selection.RelationAnswerIff | telosb-testbed/apps/antelope/relation.c:630-825 | For one comparison with any constant, the same from the values of the column: for equality when the constant is an int or in no row; for > and >= when no value is that large, or the larger of the bound and -1 lies behind the last but one value and no such value lies before the first bound; for < and <= when no value is that small, or the search for 0 ends at the first row and no such value lies behind the last row visited; a search for one value that no row has counts as visiting none |
| Selection.KeepsFromIff | telosb-testbed/apps/antelope/index-inline.c:103-227 | The condition for > and >=, whose upper bound is read as -1 |
| Selection.FirstBoundIn | telosb-testbed/apps/antelope/index-inline.c:103-227 | Its last part holds by itself unless the bound is below every int |
| Selection.LastBoundIn | telosb-testbed/apps/antelope/index-inline.c:103-227 | The same for < and <=, unless the bound is above every int |
| Selection.EqualityKeepsIff | telosb-testbed/apps/antelope/index-inline.c:103-227 | The condition for an equality |
| Selection.KeepsUpToIff | telosb-testbed/apps/antelope/index-inline.c:103-227 | The condition for < and <=, whose lower bound is read as 0 |
| Selection.Plan.DeliveredIff | telosb-testbed/apps/antelope/relation.c:630-847 | The rows any query delivers are those of the full scan exactly when it uses no index or the index leaves out no accepted row |
| Selection.Plan.IndexServesAnswer | telosb-testbed/apps/antelope/relation.c:630-847 | They are for sound ranges whose bounds survive the conversion to int |
| Selection.UnvisitedOutside | telosb-testbed/apps/antelope/index-inline.c:201-227 | Rows the index does not visit have values outside the searched range |
| Selection.AcceptsFromAnyEnv | telosb-testbed/apps/antelope/relation.c:793-821 | What earlier rows left in the variable table does not influence a row |
| Selection.OneSidedNotIntBounds | telosb-testbed/apps/antelope/relation.c:654-659 | Bounds of a range open on one side never survive the conversion |
| Selection.OpenRangeLosesRows | telosb-testbed/apps/antelope/relation.c:654-659 | For a >= c with negative c all rows with non-negative values but possibly the first are then lost |
| Selection.Handle.SelectIndex | telosb-testbed/apps/antelope/relation.c:630-672 | Chooses the last indexed column with a derived range: the running minimum is never updated |
| Selection.Handle.Open | telosb-testbed/apps/antelope/relation.c:674-709 | Derives ranges and sets up the search or a scan |
| Selection.Handle.RangeSearch | telosb-testbed/apps/antelope/index-inline.c:153-181 | Both ends of the search, or a miss |
| Selection.Handle.NextFromIndex | telosb-testbed/apps/antelope/index-inline.c:201-227 | The next row number of the range, a miss, or the end |
| Selection.Handle.NextRow | telosb-testbed/apps/antelope/relation.c:756-784 | The next row to look at, from the index or the scan |
| Selection.Handle.CopyRow | telosb-testbed/apps/antelope/relation.c:783-811 | The loop sets the variables and gives the row's stored attributes, each at its position among them |
| Selection.Handle.ProcessRow | telosb-testbed/apps/antelope/relation.c:783-843 | Returns the row's stored attributes exactly when the condition is true of the row |
| Selection.Handle.ProcessSelect | telosb-testbed/apps/antelope/relation.c:734-847 | One call visits one row, keeps the answer so far and tells the end from a miss |
| Selection.Handle.Run | telosb-testbed/apps/antelope/relation.c:734-847 | Calls until the end deliver the rows between the visited ends, in order |
| Selection.Handle.Select | telosb-testbed/apps/antelope/relation.c:630-847 | A whole query delivers exactly the rows it looks at of which the condition is true, in order, each as its stored attributes; a search for one value that no row has ends with an index error |
| Query.CompiledClause | telosb-testbed/apps/antelope/aql-parser.c:402-447 | A compiled simple clause stands in the buffer as the code of its tree |
| Query.RunQuery | telosb-testbed/apps/antelope/relation.c:630-847 | From the WHERE clause to the rows delivered, which are those of a scan accepting by the meaning of the clause if the index serves the query |
| Join.ServedIff | telosb-testbed/apps/antelope/index-inline.c:103-151 | The inline index lists exactly the partners of a left row exactly when the right relation has rows and the row's value is not below the first of them |
| Join.InlineServesIff | telosb-testbed/apps/antelope/relation.c:985-1052 | It serves a whole join exactly when that holds of every left row |
| Join.JoinInline | telosb-testbed/apps/antelope/relation.c:961-1056 | Then the join over an inline index, searched for each left value, gives the nested-loop equi-join |
| Join.NestedLoopJoins | telosb-testbed/apps/antelope/relation.c:961-1052 | The nested-loop join is every pair of rows with equal keys once, left rows first, each attribute from the relation and column it is taken from |
| Join.Relations.HitsArePartners | telosb-testbed/apps/antelope/relation.c:1014-1052 | Following an exact index lists the partners the inner loop of a nested-loop join finds |
| Join.Relations.ProducedIsPrefix | telosb-testbed/apps/antelope/relation.c:985-1052 | What has been handed out is always the beginning of the join, and one partner adds one row |
| Join.JoinHandle.NextHit | telosb-testbed/apps/antelope/index.c:304-325 | The next row number of the index iterator |
| Join.JoinHandle.LoadLeft | telosb-testbed/apps/antelope/relation.c:985-1008 | Starting a left row hands out nothing yet |
| Join.JoinHandle.JoinNext | telosb-testbed/apps/antelope/relation.c:1014-1052 | One partner is joined, or the left row is finished |
| Join.JoinHandle.ProcessJoin | telosb-testbed/apps/antelope/relation.c:961-1056 | A call resumes where the last one returned and hands out the next row, or ends exactly when all are out |
| Join.JoinHandle.RunJoin | telosb-testbed/apps/antelope/relation.c:961-1056 | Calls until the end give exactly the nested-loop equi-join: every pair of rows with equal keys once, left rows first, as its combined row |
| Crc16.TableEntry | lora-ctc-transmitter/Utils/CRC16.cpp:57-91 | Each of the 256 entries is the bitwise remainder of its index |
| Crc16.TableIsBitwise | lora-ctc-transmitter/Utils/CRC16.cpp:128-169 | A table step equals eight bitwise steps |
| Crc16.UpdateShifts | lora-ctc-transmitter/Utils/CRC16.cpp:129-133 | A table step divides out eight bits of remainder and byte together |
| Crc16.CheckIff | lora-ctc-transmitter/Utils/CRC16.cpp:196-207 | A block with two bytes behind it passes the check exactly when they are its complemented CRC, low byte first |
| Crc16.DetectsBursts | lora-ctc-transmitter/Utils/CRC16.cpp:120-137 | Two different messages of equal length whose bits differ only within sixteen consecutive bits have different CRCs |
| Crc16.DetectsTwoBytes | lora-ctc-transmitter/Utils/CRC16.cpp:120-137 | In particular those that differ only in two adjacent bytes |
| Crc16.CalcByTable | lora-ctc-transmitter/Utils/CRC16.cpp:120-137 | The table loop computes the CRC |
| Crc16.CalcBitwise | lora-ctc-transmitter/Utils/CRC16.cpp:142-172 | The bitwise loops compute the same CRC |
| Slip.ChunksDoNotMatter | lora-ctc-transmitter/Utils/ComSlip.cpp:159-254 | Decoding chunk by chunk delivers the frames, and leaves the state, of decoding everything at once |
| Slip.RunConcat | lora-ctc-transmitter/Utils/ComSlip.cpp:159-254 | Decoding a concatenation is decoding the parts in turn |
| Slip.EncodeFormat | lora-ctc-transmitter/Utils/ComSlip.cpp:85-150 | What is sent of a message: 0xC0, its bytes with 0xC0 as 0xDB 0xDC and 0xDB as 0xDB 0xDD, and 0xC0 |
| Slip.EscapeHidesEnd | lora-ctc-transmitter/Utils/ComSlip.cpp:85-105 | An escaped message contains no frame delimiter |
| Slip.DecodesEncoded | lora-ctc-transmitter/Utils/ComSlip.cpp:66-269 | A decoder awaiting a frame delivers exactly the encoded message, cut to its buffer, and nothing for an empty one |
| Slip.CutOffIsSilent | lora-ctc-transmitter/Utils/ComSlip.cpp:66-269 | A truncated encoding delivers nothing |
| Slip.AfterOneFrame | lora-ctc-transmitter/Utils/ComSlip.cpp:159-254 | After one encoded message any active decoder is in step, and what it delivers meanwhile is fixed by its state |
| Slip.Resynchronises | lora-ctc-transmitter/Utils/ComSlip.cpp:159-254 | After arbitrary noise the second of two messages arrives intact |
| Slip.NeverIdle | lora-ctc-transmitter/Utils/ComSlip.cpp:189-211 | A decoder whose client always returns a buffer never goes idle |
| Slip.ComSlip.SetRxBuffer | lora-ctc-transmitter/Utils/ComSlip.cpp:133-149 | Accepts a buffer exactly in the idle state with a client |
| Slip.ComSlip.DecodeByte | lora-ctc-transmitter/Utils/ComSlip.cpp:169-253 | One byte takes the decoder to the modelled state, or hands over the stored frame |
| Slip.ComSlip.ClientReturned | lora-ctc-transmitter/Utils/ComSlip.cpp:196-212 | Continues with the returned buffer or goes idle |
| Slip.ComSlip.StoreRxByte | lora-ctc-transmitter/Utils/ComSlip.cpp:264-269 | Stores a byte, or drops it when the buffer is full |
| Slip.ComSlip.EncodeData | lora-ctc-transmitter/Utils/ComSlip.cpp:66-116 | Writes the encoding as far as it fits and returns that length; the error result cannot occur |
| Hci.FrameFormat | lora-ctc-transmitter/WiMODLR/WiMODLRHCI.cpp:834-873 | A frame is access point, message identifier, payload and the complement of the bitwise CRC over them, low byte first |
| Hci.DispatchReceives | lora-ctc-transmitter/WiMODLR/WiMODLRHCI.cpp:1096-1127 | A message is reported once, behind all earlier ones: as the response exactly when one is awaited with its identifiers, otherwise to the access point it names; only an awaited response is marked |
| Hci.ProcessReceives | lora-ctc-transmitter/WiMODLR/WiMODLRHCI.cpp:1047-1088 | A frame is received as the message it is the frame of; any other one is counted as an error unless it passes the check and is too short |
| Hci.AcceptedIff | lora-ctc-transmitter/WiMODLR/WiMODLRHCI.cpp:1054-1072 | A received frame is accepted exactly when it is the frame of the message read from it |
| Hci.FrameRoundTrip | lora-ctc-transmitter/WiMODLR/WiMODLRHCI.cpp:834-873 | The frame of a message is accepted and read back as the same message |
| Hci.BurstRejected | lora-ctc-transmitter/WiMODLR/WiMODLRHCI.cpp:1054-1080 | A frame altered within sixteen consecutive bits is never accepted |
| Hci.DeliveredIff | lora-ctc-transmitter/WiMODLR/WiMODLRHCI.cpp:816-1127 | Sent bytes, cut into any chunks, report the message exactly once, as just said, or not at all when its encoding did not fit the transmit buffer |
| Hci.DeliveredAfterNoise | lora-ctc-transmitter/WiMODLR/WiMODLRHCI.cpp:816-1127 | After arbitrary noise the second of two messages is reported, last, as just said; before it the first one, or the frame that the noise began, or nothing, as the noise has left the decoder |
| Hci.Link.PostMessage | lora-ctc-transmitter/WiMODLR/WiMODLRHCI.cpp:816-874 | The result for every combination of arguments, and exactly the bytes handed to the device |
| Hci.Link.BuildFrame | lora-ctc-transmitter/WiMODLR/WiMODLRHCI.cpp:834-867 | The buffer holds the frame of the message |
| Hci.Link.ProcessRxMessage | lora-ctc-transmitter/WiMODLR/WiMODLRHCI.cpp:1054-1084 | Checks, counts or dispatches one frame and returns the same buffer |
| Hci.Link.DispatchRxMessage | lora-ctc-transmitter/WiMODLR/WiMODLRHCI.cpp:1094-1127 | An awaited response is marked, everything else goes to its access point |
| Hci.Link.Expect | lora-ctc-transmitter/WiMODLR/WiMODLRHCI.cpp:1001-1008 | Awaits one response |
| Hci.Link.DecodeData | lora-ctc-transmitter/Utils/ComSlip.cpp:159-254 | Received bytes take decoder and receiver to the state the stream model gives |
| CoapOption.HeaderRoundTrip | telosb-testbed/apps/er-coap/er-coap.c:96-130 | A written option header is read back as the same delta and length, and is never taken for a payload marker |
| CoapOption.IntRoundTrip | telosb-testbed/apps/er-coap/er-coap.c:83-168 | Integers survive their shortest big-endian form |
| CoapOption.BlockRoundTripIff | telosb-testbed/apps/er-coap/er-coap.h:167-177 | A block survives exactly with a number below 2^28 and a power-of-two size from 16 to 2048 |
| CoapOption.BlockOffsetIs | telosb-testbed/apps/er-coap/er-coap.c:635-656 | The parsed offset is number times size, modulo 2^32 |
| CoapOption.SplitJoins | telosb-testbed/apps/er-coap/er-coap.c:180-204 | Joining the segments of a string gives the string back, except a last separator that was examined |
| CoapOption.EndsSplitIff | telosb-testbed/apps/er-coap/er-coap.c:186-204 | That separator is examined exactly when the string ends with an odd number of them |
| CoapOption.MergedIs | telosb-testbed/apps/er-coap/er-coap.c:217-236 | Merging segments joins them with separators, except that leading empty ones are lost |
| CoapOption.TextSurvivesIff | telosb-testbed/apps/er-coap/er-coap.c:171-236 | A string survives splitting and merging exactly when it is empty, or does not start with a separator and ends with an even number of them |
| CoapOption.Log2Is | telosb-testbed/apps/er-coap/er-coap.c:70-81 | It is the exponent of the largest power of two that is not larger |
| CoapOption.ComputeLog2 | telosb-testbed/apps/er-coap/er-coap.c:70-81 | The loop computes the rounded-down logarithm |
| CoapOption.ParseIntOption | telosb-testbed/apps/er-coap/er-coap.c:83-94 | The loop computes the integer |
| CoapMeaning.HeaderFormat | telosb-testbed/apps/er-coap/er-coap.c:96-130 | An option header on the wire: two half bytes below 13 for delta and length, else 13 with one byte or 14 with two bytes behind it |
| CoapMeaning.StartFormat | telosb-testbed/apps/er-coap/er-coap.c:319-347 | A message on the wire starts with version 1, type and token length in one byte, the code, and the message id high byte first; the token follows unless the message is empty |
| CoapMeaning.IntRead | telosb-testbed/apps/er-coap/er-coap.c:83-94 | Reading an integer gives its bytes, most significant first, modulo 2^32 |
| CoapMeaning.IntFormat | telosb-testbed/apps/er-coap/er-coap.c:132-168 | An integer is written without leading zero bytes |
| CoapMeaning.BlockFormat | telosb-testbed/apps/er-coap/er-coap.h:167-177 | A block on the wire: 28 bits of its number, the more flag and the rounded-down exponent of its size, which takes the place of the flag from eight on |
| CoapMeaning.AppliedIs | telosb-testbed/apps/er-coap/er-coap.c:518-672 | What any list of options makes of a packet: exactly their numbers in the bitmap, lists merged, other fields from the last option of their number; or a refusal |
| CoapMeaning.ParsesAny | telosb-testbed/apps/er-coap/er-coap.c:437-679 | What parsing any message with well encoded options gives: BAD_REQUEST for another version; BAD_OPTION exactly when an unknown odd number has no proxy option before it; PROXYING_NOT_SUPPORTED exactly when a proxy option has no such number before it; else header, token of at most eight bytes, payload of at most one chunk, and the packet the options make, unknown elective ones changing no field |
| Coap.ParsesItems | telosb-testbed/apps/er-coap/er-coap.c:437-675 | Parsing an encoded option list applies the options one by one, in order |
| Coap.FieldApplied | telosb-testbed/apps/er-coap/er-coap.c:525-672 | The options of one field set its bit and the value read back, or refuse a proxy option |
| Coap.ParsesSerialized | telosb-testbed/apps/er-coap/er-coap.c:307-679 | Parsing any serialized packet: every bit, field and the payload as they arrive, or the refusal of proxy options |
| Coap.RereadIff | telosb-testbed/apps/er-coap/er-coap.c:170-236 | A field comes back unchanged exactly under its condition |
| Coap.RoundTripIff | telosb-testbed/apps/er-coap/er-coap.c:307-679 | Parsing undoes serializing exactly when every field meets its condition and the payload is at most one chunk |
| Coap.EmptyMessage | telosb-testbed/apps/er-coap/er-coap.c:328-336 | An empty message can be parsed back exactly without a token, and then without options and payload |
| CoapMachine.SetOptionHeader | telosb-testbed/apps/er-coap/er-coap.c:107-130 | Writes the header at the cursor and nothing else |
| CoapMachine.PutInt | telosb-testbed/apps/er-coap/er-coap.c:155-167 | Writes the shortest form |
| CoapMachine.SerializeIntOption | telosb-testbed/apps/er-coap/er-coap.c:132-168 | Writes one integer option |
| CoapMachine.SplitString | telosb-testbed/apps/er-coap/er-coap.c:180-204 | The splitting loop writes one option per segment |
| CoapMachine.SerializeField | telosb-testbed/apps/er-coap/er-coap.c:170-215 | Writes the options of one field behind those before |
| CoapMachine.SerializeOptions | telosb-testbed/apps/er-coap/er-coap.c:349-385 | Writes all set fields in the order of their numbers |
| CoapMachine.SerializeStart | telosb-testbed/apps/er-coap/er-coap.c:320-347 | Writes header and token |
| CoapMachine.SerializePayload | telosb-testbed/apps/er-coap/er-coap.c:389-396 | Writes marker and payload |
| CoapMachine.SerializeMessage | telosb-testbed/apps/er-coap/er-coap.c:307-418 | Leaves exactly the serialized packet in the buffer, or returns 0 for a long header |
| CoapMachine.InPlaceIff | telosb-testbed/apps/er-coap/er-coap.c:389-396 | With the payload lying in the buffer behind the space for the header, what is sent is what was meant exactly when the payload is empty, the header is shorter than the space, or the first byte is 0xFF |
| CoapMachine.PayloadInPlace | telosb-testbed/apps/er-coap/er-coap.c:389-396 | Writes the marker, which may overwrite the payload's first byte, and moves the payload up to it |
| CoapMachine.SerializeInPlace | telosb-testbed/apps/er-coap/er-coap.c:307-418 | Leaves exactly the bytes of that packet in the buffer |
| CoapMachine.FullHeader | telosb-testbed/apps/er-coap/er-coap.c:307-385 | Headers that fill the space exist |
| CoapMachine.BlockOptionValue | telosb-testbed/apps/er-coap/er-coap.h:171-173 | The block value built by shifts and ors |
| CoapParser.SetMember | telosb-testbed/apps/er-coap/er-coap.h:76-80 | Setting a bit adds exactly that option to the bitmap |
| CoapParser.OneStringChanged | telosb-testbed/apps/er-coap/er-coap.c:217-236 | A string stored or extended behind the others leaves all of them as they were |
| CoapParser.CoapPacket.SetOption | telosb-testbed/apps/er-coap/er-coap.h:79 | Adds one option to the bitmap |
| CoapParser.CoapPacket.MoveDown | telosb-testbed/apps/er-coap/er-coap.c:227-228 | Copies overlapping bytes down unchanged |
| CoapParser.CoapPacket.MergeMultiOption | telosb-testbed/apps/er-coap/er-coap.c:217-236 | Changes one string and nothing behind the option, although it writes into the message |
| CoapParser.CoapPacket.StoreOption | telosb-testbed/apps/er-coap/er-coap.c:523-672 | Applies one option to the packet; all unread bytes stay |
| CoapParser.CoapPacket.ParseOption | telosb-testbed/apps/er-coap/er-coap.c:498-674 | Reads one option and leaves the rest of the message to be read as it was |
| CoapParser.CoapPacket.ParseRest | telosb-testbed/apps/er-coap/er-coap.c:482-675 | The loop over a message that is being overwritten parses the original bytes |
| CoapParser.CoapPacket.SetPayload | telosb-testbed/apps/er-coap/er-coap.c:484-495 | The payload, cut to one chunk; its terminator harms nothing |
| CoapParser.CoapPacket.ReadHeader | telosb-testbed/apps/er-coap/er-coap.c:498-516 | Reads a header from the part still unread |
| CoapParser.CoapPacket.ParseMessage | telosb-testbed/apps/er-coap/er-coap.c:437-679 | Status and packet are those of parsing the original message, with strings read from the overwritten buffer |
| CoapExchange.ExchangeInPlace | telosb-testbed/apps/er-coap/er-coap.c:307-679 | The engine's way, with the payload in the buffer: the packet arrives unchanged exactly when all its fields survive, the payload is at most one chunk, and the marker has room in front of it or overwrites its own value |
| CoapExchange.Exchange | telosb-testbed/apps/er-coap/er-coap.c:307-679 | Serializing into a buffer and parsing in place there shows the packet as it arrives, and unchanged if all its fields survive |
| WellKnownCore.DescriptionIs | telosb-testbed/apps/er-coap/er-coap-res-well-known-core.c:153-176 | The description is the links of all resources in order, separated by commas: the path in angle brackets, and behind a semicolon the attributes, if any |
| WellKnownCore.GetHandler | telosb-testbed/apps/er-coap/er-coap-res-well-known-core.c:79-204 | The first bytes of the buffer are the window of the full description, the offset is -1 exactly when the text ends within it, and the request is out of scope exactly behind a non-empty text |
| WellKnownCore.Fetch | telosb-testbed/apps/er-coap/er-coap-res-well-known-core.c:79-204 | Asking with the returned offsets terminates and concatenates to the description |
| WellKnownCore.AddEntry | telosb-testbed/apps/er-coap/er-coap-res-well-known-core.c:162-182 | One resource; the loop is left exactly when text remains beyond the window |
| WellKnownCore.AddString | telosb-testbed/apps/er-coap/er-coap-res-well-known-core.c:60-74 | Offers a string to the window; the buffer position passes the size exactly when the text does |
| WellKnownCore.AddChar | telosb-testbed/apps/er-coap/er-coap-res-well-known-core.c:54-58 | Offers one character to the window |
| WellKnownCore.Print | telosb-testbed/apps/er-coap/er-coap-res-well-known-core.c:63-68 | At most room - 1 characters are written, the full length is returned |
| WellKnownCore.DescriptionGrows | telosb-testbed/apps/er-coap/er-coap-res-well-known-core.c:116-183 | Only the first entry has no comma before it |
| Transactions.RunSafe | telosb-testbed/apps/er-coap/er-coap-transactions.c:70-184 | In every run: no message for a request without an answer, one if unconfirmed, at most five with doubling waits; at most one callback and one freeing per transaction, and free slots plus open transactions are the pool; after the fifth message the transaction is already freed |
| Transactions.ActKeeps | telosb-testbed/apps/er-coap/er-coap-transactions.c:70-184 | Every operation keeps the invariant |
| Transactions.PoolConserved | telosb-testbed/apps/er-coap/er-coap-transactions.c:57-87 | Free slots and open transactions always add up to the pool size |
| Transactions.SendKeeps | telosb-testbed/apps/er-coap/er-coap-transactions.c:89-145 | Sending leaves the transaction waiting with the right interval, or freed |
| Transactions.CheckKeeps | telosb-testbed/apps/er-coap/er-coap-transactions.c:172-184 | The walk, cut short after a removal, keeps the invariant |
| Transactions.OwnCallbackIff | telosb-testbed/apps/er-coap/er-coap-engine.c:242-253 | A callback that is called belongs to the closed transaction exactly when that one registered a callback |
| Transactions.StaleCallback | telosb-testbed/apps/er-coap/er-coap-transactions.c:70-87 | A concrete run in which the callback of an earlier transaction is called for a later one in its slot |
| TransactionMessages.StepMessages | telosb-testbed/apps/er-coap/er-coap-transactions.c:89-184 | Every step sends a transaction at most one message: when it is opened and a slot is free, or when it has expired and no expired transaction before it in the list is on its last attempt; the wait behind it is the spread first one, the doubled last one, or none |
| TransactionMessages.NthMessageIff | telosb-testbed/apps/er-coap/er-coap-transactions.c:89-184 | In every run a transaction's n-th message has been sent exactly when such a step came with n - 1 messages sent, and the wait behind it is the one that step gives it |
| TransactionMessages.AnswerFreesIff | telosb-testbed/apps/er-coap/er-coap-engine.c:242-253 | In every run an answer frees a transaction exactly when that is the earliest one opened with the answer's message number that has not been freed |
| TransactionMessages.RegistersIff | telosb-testbed/apps/er-coap/er-coap-transactions.c:70-87 | In every run a callback is registered for a transaction exactly when the step that opened it was given one |
| TransactionEnds.StepEffect | telosb-testbed/apps/er-coap/er-coap-engine.c:68-290 | Every step frees at most one transaction, the named one, and calls at most its callback, for an answer or the last attempt only; transactions freed before keep their messages, freeings and callbacks |
| TransactionEnds.FreedIff | telosb-testbed/apps/er-coap/er-coap-engine.c:68-290 | In every run: a transaction is freed exactly once some step frees it, by exactly one step, and its messages show which: none for a request without an answer, one for an unconfirmed message, five for the last attempt, otherwise one to four of which the last is waited for |
| TransactionEnds.SilentIff | telosb-testbed/apps/er-coap/er-coap-engine.c:77-271 | In every run a confirmable transaction is freed without a call of the callback it registered exactly when a datagram that was not parsed freed it |
| TransactionEnds.PointerIff | telosb-testbed/apps/er-coap/er-coap-engine.c:77-256 | What coap_receive points to between datagrams is a transaction exactly while the datagram parsed last is the request it was opened for |
| TransactionEnds.RefusalFreesIff | telosb-testbed/apps/er-coap/er-coap-engine.c:77-271 | A datagram that is not parsed frees a transaction exactly when that one uses the slot of the request parsed last; it was opened later than the request's own, waits for an answer and has attempts left |
| TransactionEnds.DroppedUnanswered | telosb-testbed/apps/er-coap/er-coap-engine.c:77-271 | A concrete run in which this happens |
| TransactionPool.Pool.ServeRequest | telosb-testbed/apps/er-coap/er-coap-engine.c:98-271 | Opens the transaction of a request and sends its answer or clears it, keeping the pointer |
| TransactionPool.Pool.RefuseDatagram | telosb-testbed/apps/er-coap/er-coap-engine.c:77-271 | Clears the slot the last request left behind, if it is in use |
| TransactionPool.Pool.NewTransaction | telosb-testbed/apps/er-coap/er-coap-transactions.c:70-87 | Takes the first free slot without resetting its callback |
| TransactionPool.Pool.SendTransaction | telosb-testbed/apps/er-coap/er-coap-transactions.c:89-145 | Refines the modelled sending |
| TransactionPool.Pool.ClearTransaction | telosb-testbed/apps/er-coap/er-coap-transactions.c:147-157 | Frees the slot and unlinks it |
| TransactionPool.Pool.CloseTransaction | telosb-testbed/apps/er-coap/er-coap-transactions.c:130-140 | Frees the slot, then calls the callback it had |
| TransactionPool.Pool.GetTransactionByMid | telosb-testbed/apps/er-coap/er-coap-transactions.c:158-170 | Finds the first open transaction with the number |
| TransactionPool.Pool.OpenAndSend | telosb-testbed/apps/er-coap/er-coap-engine.c:101-262 | Opens a transaction and sends it, as answering a request does |
| TransactionPool.Pool.ReceiveAnswer | telosb-testbed/apps/er-coap/er-coap-engine.c:242-255 | Closes the transaction an answer belongs to |
| TransactionPool.Pool.CheckTransactions | telosb-testbed/apps/er-coap/er-coap-transactions.c:172-184 | Refines the walk over the list |

## Left out

- Sockets, radio, serial ports, files, clocks and random numbers: storage is a sequence of pages, rows or buckets, the network a set of messages, a timer a step that may happen at any time, randomness a parameter.
- Deluge: images of different lengths, and more than one altered packet. Two upgrades at once are considered in one run only.
- DelugeNode.Object.SendRequest: a timer that fires with no page left reads behind the page table; what it reads there is not modelled, and runs do not go on from it.
- Deluge.UpgradeCompletes: states that hearing the packets completes the upgrade; that a lossy channel lets them be heard is an assumption about the channel.
- MaxHeap: reloading an index, deleting, further matches of one key, and the emulation of range queries.
- MaxHeap.LookupAfterRun: reads buckets from storage; what the one-entry cache makes of a lookup is stated in MaxHeapCache.
- MaxHeapCache.AnswerIff: one index; a second one sharing the cache entry is not modelled.
- LogicVM: floats, strings, and the growth of the variable table; a variable operand's three unset bytes are taken to be zero. The tables of variables and ranges are declared one element shorter than the loops over them run; the model has an element for each variable.
- Where.WhereCodeIff: the clause is given as a list of comparisons, without tokens and parentheses; attributes and variables are already numbered.
- Selection: aggregates, the inverse logic of REMOVE, results assigned to a relation, storage errors, columns that are not integers, and the choice of an index that is not inline.
- InlineIndex.BinarySearch: a target below the first value, and an empty relation, make the unsigned upper bound wrap around; the next probe is behind the last row, and the value compared is whatever an uninitialised row buffer holds. What happens then is not modelled.
- Selection.Handle.RangeSearch: leaves out the same case, for either end of the range.
- Selection.Handle.Select: leaves out the same case, for the index that is chosen.
- Query.RunQuery: leaves out the same case.
- Join.JoinHandle.RunJoin: the index is one that lists exactly the matching rows in order, which InlineServesIff decides for the inline index; an index that names a row that does not exist, and storage errors, are not modelled.
- Join.JoinInline: leaves out left values below the right column's first value, and an empty right relation, for the reason given for InlineIndex.BinarySearch.
- HCI: waiting for a response, the timing loops, the variant that resends a recorded buffer, and what the access points do with a dispatched message.
- SLIP: a decoder without a client never leaves its idle state, so the branch for a frame without a client is not modelled.
- CoAP: separate responses, observers, block-wise transfer by the engine, and the getters and setters of single fields.
- Coap.RoundTripIff: the byte behind the terminator of a string, which the splitting loop reads when the last character is an examined separator, is taken to be no separator; TextSurvivesIff covers any byte.
- CoapMachine.SerializeMessage: the packet is a value; a payload that lies in the buffer is the case of SerializeInPlace.
- CoapMachine.SerializePayload: the payload is a value; a payload that lies in the buffer is the case of PayloadInPlace.
- CoapMachine.SerializeInPlace: the payload lies behind the space reserved for the header; the packet's strings do not lie in the buffer.
- CoapExchange.Exchange: the payload is a value; a payload that lies in the buffer is the case of ExchangeInPlace.
- CoapParser.CoapPacket.ParseMessage: messages shorter than their header, token or last option would be read behind their end, and option numbers above 63 would set a bit behind the bitmap; both are the outcome Stray, which the method excludes. Numbers that wrap around at 16 bits count as lying behind the bitmap.
- WellKnownCore: link-format filtering; the description is assumed to be shorter than a size_t can count.
- Transactions.RunSafe: opening a transaction and sending it for the first time is one step, and a callback is an event; transactions it opens are later steps.
- Transactions: the answer to a request has the type it is initialised with, acknowledgement or unconfirmed.
- Transactions: addresses and ports, and the removal of observers after a timeout.
- `telosb-testbed/apps/codeprop`, tunnels, desktop and configuration programs: input and output rather than logic.
