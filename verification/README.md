# A verified model of the Throttr server

Throttr is an in-memory server of counters, buffers and channels. Clients write
requests over TCP or UNIX sockets; the server cuts the byte stream into messages,
runs a command for each, and queues the replies in order. Entries expire: a collector
flags them at their deadline and erases them ten seconds later. This project models
the server's logic in Dafny and proves what its parts keep, one module per component.

| module | what it models |
|---|---|
| `Bytes`, `Entries`, `Time`, `Wrappers` | little-endian numbers, 64-bit wrap-around, entries, TTL units |
| `MessageSizes`, `Requests`, `Framing` | the table of size functions, what clients write, the 8096-byte read buffer and its cursors |
| `Packing`, `FragmentCodec`, `Messages` | greedy fragments, the layout of fragmented responses and their reader, the segments of an outgoing message |
| `ResponseBuilder`, `ConnectionsResponse`, `ChannelsResponse` | the LIST, STATS, CONNECTIONS and CHANNELS handlers: measure, reserve, write |
| `Store`, `StorageServer` | the store as a state machine, and the services that implement its steps |
| `StoreCommands` | what each step does to the entry it is about, field by field, to the timer and to the queue |
| `StoreProperties`, `TimerProperties`, `StoreWitnesses` | what the store and its timer keep over whole runs, and runs that reach the states where they keep less |
| `MessagesPool`, `WriteQueue` | the pool of recycled messages and a connection's queue of writes |
| `Delivery`, `Traffic` | messages on their way to clients, and the bytes they carry as plain queues |
| `EventLoop` | the executor that interleaves all connections |
| `Serializer` | dump and restore |
| `Subscriptions`, `Registry` | the subscription index, joining and leaving, publishing |
| `MetricCounters` | counters that are marked while a collector empties them |

Objects that change in place are classes, and each of their methods is proved against
a function of the old state; the properties are lemmas about those functions, over all
inputs, runs and interleavings.

Conventions of the model:

- The width of a value, `sizeof(value_type)`, is the parameter `v`, one of 1, 2, 4
  and 8. The machine is little-endian. Sums of `std::size_t` and `std::uint64_t` wrap.
- The protocol library is not part of this model. Enumerator values are therefore
  parameters (a `Table` of type bytes, a `Protocol` of entry and TTL codes), and header
  sizes are the ones the size functions' indices imply: insert and set `2v + 3`, update
  `v + 4`, publish and event `v + 2`, connection 17, keyed requests 2, the rest 1. The
  order of the fields before the key length is inferred from those indices too.
- Clocks are parameters. So is the iteration order of a hashed index, wherever the code
  depends on it. `RunCollect` takes two clock readings, because `run` reads the clock
  once and `schedule_timer` reads it again.
- `schedule_timer` calls `run` for a deadline that has passed, while `run` may still
  hold the lock. The model posts that call as a further step.
- `scheduled_key_` is never assigned, so a TTL change re-arms the timer exactly for
  the empty key. The model does the same.
- A circular buffer without room drops its oldest element, as in `PushBack`.
- Metrics are compiled in.

Some expectations a reader may have are false of the code. Each is stated with the exact
condition under which it holds, and with an input or a run on which it fails:

| expectation | holds exactly when | fails in |
|---|---|---|
| every deadline has a wake-up in time | `TimerProperties.StepCoversIff`, `CoveredThroughoutIff` | `StoreWitnesses.ReplacedTimer`, `MovedDeadlines` |
| a collection leaves a wake-up for what it leaves | `StoreProperties.CollectAnchoredIff` | `StoreProperties.LargestDeadlineStrands` |
| SET makes its key visible | `StoreProperties.SetIsVisibleIff`, `SetOverTombstoneIsLost` | `StoreWitnesses.SetOverTombstone` |
| two collections settle the storage | `StoreProperties.TwoRunsSettle`, `StepFlagsIff` | `StoreWitnesses.SetOverTombstone` |
| a CHANNELS fragment measures at most 2048 bytes | `ChannelsResponse.NamesAreNotLimited` | `ChannelsResponse.FullFragment` |
| CHANNELS reserves as many segments as it uses | `ChannelsResponse.ChannelsAtMostSubs` | `ChannelsResponse.SharedChannel` |
| a restored value is the dumped one | `Serializer.RestoredValueIff` | `Serializer.RestoredCounter` |
| the scan finds only the connection's own channels | `Subscriptions.ScanIsComplete` | `Subscriptions.ScanIsUnsound` |
| refilling a pool ends | `MessagesPool.PushesReach` | `MessagesPool.UnpreparedRefill` |
| a message sent is written or pending | `WriteQueue.OverflowLosesIff` | `WriteQueue.Overflow` |

## Model

| member | source | states |
|---|---|---|
| MessageSizes.PrefixStable | src/sources/services/messages_service.cpp:23-161 | a message size, once non-zero, never changes when more bytes arrive, for every registered kind and every value width |
| MessageSizes.SizeKnownIffHeader | src/sources/services/messages_service.cpp:23-161 | for values of up to four bytes, the size is known if and only if the kind is registered and its header is complete, and it is at least the header |
| MessageSizes.SelfDelimiting | src/sources/services/messages_service.cpp:23-161 | a view cut at its computed size computes that same size by itself |
| MessageSizes.EightByteValuesWrap | src/sources/services/messages_service.cpp:47-56 | with eight-byte values the sum can wrap: a SET header whose computed size is one byte |
| Requests.EncodedSize | src/sources/services/messages_service.cpp:23-161 | whatever request a client encodes, the size function of its kind returns exactly the length of the encoding |
| Requests.PipelineArrives | src/include/throttr/connection.ipp:169-238 | a pipeline of requests, cut into reads in any way, is dispatched as exactly those requests, in order, with nothing left over |
| Framing.ParseConserves | src/include/throttr/connection.ipp:186-234 | frames and remainder make up the stream, and the remainder is incomplete |
| Framing.ParseIsTheFraming | src/include/throttr/connection.ipp:186-234 | a list of frames and a remainder is a correct framing of a stream if and only if it is what the parser returns |
| Framing.ParseResumes | src/include/throttr/connection.ipp:186-238 | parsing may stop at any byte and resume from the remainder |
| Framing.ReadsResume | src/include/throttr/connection.ipp:169-238 | parsing read by read equals parsing the concatenated stream |
| Framing.ChunkingIndependence | src/include/throttr/connection.ipp:139-264 | two ways of cutting the same stream into reads dispatch the same requests and keep the same pending bytes |
| Framing.MessagesSurviveChunking | src/include/throttr/connection.ipp:139-264 | a stream of self-delimiting messages yields exactly those messages, whatever the reads |
| Framing.PendingLeavesRoom | src/include/throttr/connection.ipp:251-264 | the pending part of a message of at most 8096 bytes never fills the buffer |
| Framing.Reader.CompactBuffer | src/include/throttr/connection.ipp:152-159 | the memmove keeps the pending bytes and moves them to the front |
| Framing.Reader.CompactBufferIfNeeded | src/include/throttr/connection.ipp:139-150 | keeps the pending bytes; afterwards the start is in the first half, and zero if nothing is pending |
| Framing.Reader.DoRead | src/include/throttr/connection.ipp:251-260 | keeps the pending bytes; a full buffer afterwards means that they fill all of it |
| Framing.Reader.GetMessageSize | src/include/throttr/connection.ipp:240-249 | dispatches through the table; an empty span has no size yet |
| Framing.Reader.TryProcessNext | src/include/throttr/connection.ipp:186-238 | the loop over cursors dispatches exactly the frames of the parser and leaves exactly its remainder pending |
| Framing.Reader.Fill | src/include/throttr/connection.ipp:259-263 | bytes read into the window at the end cursor are appended to the pending bytes |
| Framing.Reader.OnRead | src/include/throttr/connection.ipp:169-184 | after every read, everything received is the dispatched frames followed by the pending bytes, and the next read has a window unless 8096 bytes are pending |
| Packing.FragmentsConserve | src/sources/services/response_builder_service.cpp:250-293 | fragments concatenate to the items, in order, none lost or repeated |
| Packing.FragmentsFitIff | src/sources/services/response_builder_service.cpp:265-293 | all fragments are non-empty and within the limit if and only if every single item is within the limit |
| Packing.GreedyIsOptimal | src/sources/services/response_builder_service.cpp:250-293 | no order-preserving split within the limit has fewer fragments |
| Packing.UniformFragments | src/sources/services/response_builder_service.cpp:160-179 | items of one weight, k to a fragment, take the ceiling of n over k fragments |
| FragmentCodec.ResponseRoundTrip | src/sources/services/response_builder_service.cpp:300-338 | decoding an encoded response returns every fragment with its number, records and names, and stops at its last byte |
| FragmentCodec.ResponseLayout | src/sources/services/response_builder_service.cpp:300-336 | a response starts with status 1 and the fragment count; its first fragment has number 1, its record count, all metadata, all names, and the rest follows |
| Messages.Message.Resize | src/sources/services/response_builder_service.cpp:298 | resizing keeps the bytes and starts a new generation, so that segments taken before it no longer count as pointing into the buffer |
| Messages.Message.EmplaceOwn | src/sources/services/response_builder_service.cpp:306 | a segment over filled bytes adds exactly those bytes to what the socket will send |
| Messages.Message.EmplaceForeign | src/sources/services/response_builder_service.cpp:334 | a segment over bytes elsewhere adds exactly those bytes |
| ResponseBuilder.WriteListEntry | src/sources/services/response_builder_service.cpp:37-90 | writes the size it measured, in five segments that send the entry's LIST metadata |
| ResponseBuilder.WriteStatsEntry | src/sources/services/response_builder_service.cpp:92-134 | writes the 33 bytes it measured, in five segments that send the entry's STATS metadata |
| ResponseBuilder.Measure | src/sources/services/response_builder_service.cpp:239-295 | the measuring loop computes the greedy fragments of the unexpired entries, and the bytes and segments they will take |
| ResponseBuilder.WriteFragment | src/sources/services/response_builder_service.cpp:311-335 | a fragment sends its number, its count, all metadata and then all keys |
| ResponseBuilder.WriteBody | src/sources/services/response_builder_service.cpp:310-338 | the write pass sends the fragments in order and ends at the measured offset |
| ResponseBuilder.HandleFragmentedEntries | src/sources/services/response_builder_service.cpp:230-339 | the response sent is the encoding of the greedy fragments; the one resize precedes every segment, the buffer is filled exactly, and the segments are exactly the reserved ones |
| ResponseBuilder.LiveFragmentsFit | src/sources/services/response_builder_service.cpp:250-293 | with one-byte key lengths every LIST and STATS fragment is non-empty and measures at most 2048, and together they are the unexpired entries in index order |
| ResponseBuilder.LiveFragmentsOptimal | src/sources/services/response_builder_service.cpp:250-293 | and no split of those entries within the limit has fewer fragments |
| ResponseBuilder.MeasuredBytes | src/sources/services/response_builder_service.cpp:259-283 | a fragment writes exactly what was measured, keys included, and for LIST two more bytes a record |
| ResponseBuilder.FragmentsOnTheWire | src/sources/services/response_builder_service.cpp:250-293 | every fragment is non-empty and writes at most 2048 bytes of metadata and keys, and for LIST two more a record |
| ResponseBuilder.FewestOnTheWire | src/sources/services/response_builder_service.cpp:250-293 | no order-preserving split into fragments that write no more than that has fewer |
| ResponseBuilder.LiveInOrder | src/sources/services/response_builder_service.cpp:250-253 | expired entries are left out and the others keep the order of the index |
| ResponseBuilder.ListRecordSays | src/sources/services/response_builder_service.cpp:51-87 | the bytes of a LIST record give key length, type, TTL type, deadline and bytes used: the value width of a counter, the length of a buffer |
| ResponseBuilder.StatsRecordSays | src/sources/services/response_builder_service.cpp:107-124 | the bytes of a STATS record give key length and the four metrics in their order |
| ResponseBuilder.EntriesRoundTrip | src/sources/services/response_builder_service.cpp:230-339 | decoding a LIST or STATS response of any storage returns every unexpired entry's key and metadata, fragment by fragment, and stops where the next response begins |
| ConnectionsResponse.WriteRecord | src/include/throttr/services/response_builder_service.hpp:94-221 | a connection's record is 237 bytes in one segment |
| ConnectionsResponse.Measure | src/sources/services/response_builder_service.cpp:141-196 | the loop over the four maps fills fragments greedily across map boundaries and measures them exactly |
| ConnectionsResponse.WriteFragment | src/sources/services/response_builder_service.cpp:206-227 | a fragment sends its number, its count, its TCP and then its UNIX records |
| ConnectionsResponse.HandleFragmentedConnections | src/sources/services/response_builder_service.cpp:136-228 | the response sent is the encoding of the groups, with the buffer and the reservation exact |
| ConnectionsResponse.FragmentCount | src/sources/services/response_builder_service.cpp:160-179 | n connections take exactly the ceiling of n/8 fragments |
| ConnectionsResponse.RecordLayout | src/include/throttr/services/response_builder_service.hpp:120-216 | where a client finds each field of the record |
| ConnectionsResponse.WordsAt | src/include/throttr/services/response_builder_service.hpp:161-216 | and each of its 64-bit metrics |
| ConnectionsResponse.PaddedIpAt | src/include/throttr/services/response_builder_service.hpp:139-146 | the address field, byte by byte: the text cut at sixteen, then zeros |
| ConnectionsResponse.TcpFirst | src/sources/services/response_builder_service.cpp:219-226 | in every fragment the TCP records precede the UNIX records |
| ConnectionsResponse.AllFourMaps | src/sources/services/response_builder_service.cpp:181-184 | the connections of the four maps are visited one map after the other, and the decoded response holds each one's record as often as it is registered, in ceiling of n/8 fragments for the n of all four |
| ConnectionsResponse.ConnectionsRoundTrip | src/sources/services/response_builder_service.cpp:136-228 | decoding returns ceiling of n/8 numbered fragments that hold every connection's record exactly once, TCP before UNIX |
| ChannelsResponse.StatsAreTheChannels | src/sources/services/response_builder_service.cpp:364-401 | one record per channel, none missing, each summing exactly that channel's subscriptions |
| ChannelsResponse.RecordSums | src/sources/services/response_builder_service.cpp:374-387 | a record's sums are those of the read bytes and of the written bytes of its channel's subscriptions, and its count is theirs |
| ChannelsResponse.OfAre | src/sources/services/response_builder_service.cpp:374 | the subscriptions summed are exactly those that name the channel |
| ChannelsResponse.TotalsAre | src/sources/services/response_builder_service.cpp:378-379 | each subscription counts once in its total |
| ChannelsResponse.StatsInOrder | src/sources/services/response_builder_service.cpp:364-401 | records come in the order of the index |
| ChannelsResponse.SumRange | src/sources/services/response_builder_service.cpp:374-385 | the inner loop visits the whole range of a channel and sums its metrics, wrapping at 64 bits |
| ChannelsResponse.Measure | src/sources/services/response_builder_service.cpp:354-408 | the measuring loop groups the channels greedily, tabulates their sums and measures their bytes |
| ChannelsResponse.HandleFragmentedChannels | src/sources/services/response_builder_service.cpp:341-469 | the response sent is the encoding of the groups and fills the buffer exactly; the reservation of segments exceeds what is used by five per repeated subscription |
| ChannelsResponse.FragmentCount | src/sources/services/response_builder_service.cpp:388-398 | m channels take exactly the ceiling of m/81 fragments |
| ChannelsResponse.NamesAreNotLimited | src/sources/services/response_builder_service.cpp:364-407 | names do not count when fragments are cut: every fragment measures at most 2048 if and only if all channels with their names fit a single one, and never with more than 78 channels |
| ChannelsResponse.FullFragment | src/sources/services/response_builder_service.cpp:388-398 | 81 channels with one-byte names make one fragment of 2106 bytes |
| ChannelsResponse.ChannelsAtMostSubs | src/sources/services/response_builder_service.cpp:410-416 | there are at most as many channels as subscriptions, and as many if and only if no channel has two |
| ChannelsResponse.SharedChannel | src/include/throttr/state.hpp:301-302 | two subscriptions to the channel for everybody are one channel, with room reserved for two |
| ChannelsResponse.MetaLayout | src/sources/services/response_builder_service.cpp:443-460 | where a client finds name length, read sum, write sum and count of a record |
| ChannelsResponse.ChannelsRoundTrip | src/sources/services/response_builder_service.cpp:341-469 | decoding returns every channel with its name, sums and subscription count |
| Time.SmallValuesConvert | src/include/throttr/time.hpp:45-65 | no TTL of one or two bytes overflows its conversion to nanoseconds, and none of four bytes does up to seconds |
| Time.LongUnitsOverflow | src/include/throttr/time.hpp:56-61 | the exact largest number of minutes and of hours that converts |
| Time.TtlCountsDown | src/include/throttr/time.hpp:35-103 | e nanoseconds after creation with TTL value, and not past it, the reported TTL is value less the ceiling of e over the unit, without truncation |
| Time.DeadlineAhead | src/include/throttr/time.hpp:35-84 | a deadline that does not wrap lies the TTL's units ahead of now, and from it on no TTL is left |
| Time.PatchAgreesWithCreation | src/sources/services/update_service.cpp:66-94 | patching a TTL gives the deadline that creating the entry now would, if and only if the unit is one of the six or the value is zero |
| StorageServer.Server.ScheduleTimer | src/sources/services/garbage_collector_service.cpp:25-47 | arms the timer for a deadline ahead and queues a collection for one that has passed |
| StorageServer.Server.Inspect | src/sources/services/garbage_collector_service.cpp:63-85 | collects exactly the entries to flag and to erase, and proposes the earliest deadline of an unflagged entry ahead |
| StorageServer.Server.Flag | src/sources/services/garbage_collector_service.cpp:87-105 | flags exactly the given keys |
| StorageServer.Server.Erase | src/sources/services/garbage_collector_service.cpp:107-121 | erases exactly the given keys that are flagged |
| StorageServer.Server.EarliestCandidate | src/sources/services/garbage_collector_service.cpp:123-137 | the minimum of the proposed deadline and every entry's next one |
| StorageServer.Server.RunCollection | src/sources/services/garbage_collector_service.cpp:49-146 | whatever the index order, one collection flags, erases and re-arms as the state machine's step does |
| StorageServer.Server.FirstUnflagged | src/sources/services/create_service.cpp:102-120 | the entry a create is compared with is the first unflagged one in index order |
| StorageServer.Server.Use | src/sources/services/create_service.cpp:32-151 | INSERT and SET: replace, refuse or store as the state machine's step does, waking the timer by comparison with the first unflagged entry only |
| StorageServer.Server.FindOrFail | src/sources/services/find_service.cpp:23-37 | finds a key if and only if it is stored and not flagged |
| StorageServer.Server.UpdateEntry | src/sources/commands/update_command.cpp:52-118 | UPDATE changes the quota or the deadline, or refuses, as the state machine's step does |
| StorageServer.Server.PurgeEntry | src/sources/commands/purge_command.cpp:44-85 | PURGE erases a visible key and refuses any other |
| StorageServer.Server.FireTimer | src/sources/services/garbage_collector_service.cpp:40-46 | the timer's handler queues a collection |
| StorageServer.Server.RunScheduleTask | src/sources/services/create_service.cpp:111-116 | a queued wake-up runs once |
| StorageServer.Server.RunCollectTask | src/sources/services/garbage_collector_service.cpp:33-36 | a queued collection runs once |
| StoreCommands.FindResult | src/sources/services/find_service.cpp:25-36 | a lookup finds a key if and only if it is stored and not flagged, and changes nothing |
| StoreCommands.PurgeResult | src/sources/commands/purge_command.cpp:44-85 | PURGE of a visible key says yes and takes out that key alone, so that the next lookup fails; of any other key it says no and changes nothing |
| StoreCommands.CreateResult | src/sources/services/create_service.cpp:92-121 | INSERT or SET of an absent key stores its type, value, TTL type and deadline, unflagged, with one write counted, and queues a wake-up if and only if the first unflagged entry is due no earlier |
| StoreCommands.SetAgainResult | src/sources/services/create_service.cpp:53-88 | a second SET replaces buffer, deadline and TTL type, and nothing else |
| StoreCommands.CreateRefused | src/sources/services/create_service.cpp:59-92 | INSERT of any stored key and SET of a stored counter are refused and change nothing |
| StoreCommands.UpdateRefused | src/sources/commands/update_command.cpp:52-83 | UPDATE of a key not visible, or of the quota of a buffer, is refused and changes nothing |
| StoreCommands.QuotaResult | src/sources/services/update_service.cpp:34-53 | patch, increase and decrease give the counter they should, change nothing else, and only a decrease below zero is refused |
| StoreCommands.TtlResult | src/sources/services/update_service.cpp:66-114 | patch, increase and decrease give the deadline they should in the entry's own units, change nothing else, and queue a wake-up if and only if the key is empty |
| StoreCommands.FireResult | src/sources/services/garbage_collector_service.cpp:40-46 | the timer going off is unarmed and queues one collection |
| StoreCommands.ScheduleResult | src/sources/services/garbage_collector_service.cpp:32-46 | a wake-up is used up: it arms the timer if it lies ahead and queues a collection otherwise |
| StoreCommands.CollectResult | src/sources/services/garbage_collector_service.cpp:63-121 | a collection flags exactly what is due, erases exactly what was flagged more than ten seconds past its deadline, and changes no other field |
| StoreCommands.Constants | src/sources/services/garbage_collector_service.cpp:62-71 | the grace is ten seconds, and "none" is the largest 64-bit value |
| StoreProperties.StepAnchored | src/sources/services/create_service.cpp:96-121 | every step keeps: stored entries imply an armed timer or a queued wake-up |
| StoreProperties.NoStrandedStorage | src/sources/services/garbage_collector_service.cpp:32-46 | so it holds in every state reachable from empty storage, while deadlines stay below the largest 64-bit value |
| StoreProperties.CollectAnchoredIff | src/sources/services/garbage_collector_service.cpp:144-145 | a collection leaves a wake-up if and only if it leaves nothing, or some deadline other than the largest value, or one was there before |
| StoreProperties.LargestDeadlineStrands | src/sources/services/garbage_collector_service.cpp:144-145 | one entry with the largest deadline is left without a wake-up |
| TimerProperties.TimerExactAfterCollect | src/sources/services/garbage_collector_service.cpp:123-145 | right after a collection: another is queued if an entry left is already due; otherwise the timer stands at exactly the minimum of the deadlines left, or is untouched if none is left |
| TimerProperties.CollectRunsAgainIff | src/sources/services/garbage_collector_service.cpp:32-37 | a collection runs another at once if and only if an entry it leaves is due by the second clock reading |
| TimerProperties.CoveredAtRest | src/sources/services/garbage_collector_service.cpp:39-46 | with nothing queued, every deadline has a wake-up in time if and only if the timer stands no later than the earliest deadline |
| TimerProperties.CreateCovers | src/sources/services/create_service.cpp:53-121 | a create of an absent key always keeps every deadline covered by a wake-up, though it compares with the first unflagged entry only; a second SET does if and only if something wakes by its new deadline |
| TimerProperties.UpdateCovers | src/sources/services/update_service.cpp:90-114 | a TTL change does if and only if it is on the empty key, or something wakes by the new deadline |
| TimerProperties.ScheduleCovers | src/sources/services/garbage_collector_service.cpp:32-46 | a queued wake-up does if and only if it has passed, or no deadline before it relied on the timer it replaces |
| TimerProperties.CollectCovers | src/sources/services/garbage_collector_service.cpp:123-145 | a collection covers every deadline it leaves, whatever was covered before, if and only if it leaves nothing, or some deadline other than the largest value, or another wake-up was there |
| TimerProperties.StepCoversIff | src/sources/services/garbage_collector_service.cpp:25-47 | each step of the machine keeps every deadline covered if and only if its own condition on the state before holds |
| TimerProperties.CoveredThroughoutIff | src/sources/services/garbage_collector_service.cpp:25-146 | a run from empty storage is covered in every state if and only if each of its steps meets its condition |
| StoreWitnesses.ReplacedTimer | src/sources/services/garbage_collector_service.cpp:39-46 | a run from empty storage: three creates, their wake-ups taken in order, and the timer at 50 while an entry is due at 10 |
| StoreWitnesses.MovedDeadlines | src/sources/services/update_service.cpp:98-105 | a run from empty storage after which a TTL decrease, and likewise a second SET, leaves the timer later than the deadline |
| StoreWitnesses.SetOverTombstone | src/sources/services/create_service.cpp:59-88 | a run from empty storage after which SET on a flagged key answers yes, the key stays invisible, and the next collection erases it ahead of its deadline |
| StoreProperties.StepOnTombstone | src/sources/commands/purge_command.cpp:45-74 | a flagged key answers no command but SET, refusals change nothing, and only the collector removes it |
| StoreProperties.StepOnAbsent | src/sources/services/create_service.cpp:92-150 | an absent key is stored by a create of it and by nothing else, and is then visible |
| StoreProperties.TombstonesLast | src/sources/services/garbage_collector_service.cpp:87-121 | over any run, a key once flagged is visible again only after the collector erased it and a later create stored it |
| StoreProperties.SetIsVisibleIff | src/sources/services/create_service.cpp:53-92 | a SET that succeeds leaves its key visible if and only if the key was not flagged |
| StoreProperties.SetOverTombstoneIsLost | src/sources/services/garbage_collector_service.cpp:67-76 | the value SET over a flagged key is erased by the next collection, unless its deadline lies almost a full clock period ahead |
| StoreProperties.TwoRunsSettle | src/sources/services/garbage_collector_service.cpp:63-121 | two collections at one instant leave each entry unflagged before its deadline, flagged for ten seconds from it and gone afterwards, if and only if no entry was flagged early |
| StoreProperties.StepFlagsIff | src/sources/services/create_service.cpp:59-68 | a step keeps every flag at or after its deadline if and only if it is not a SET of a deadline ahead on a flagged key |
| StoreProperties.ReachedStorageSettles | src/sources/services/garbage_collector_service.cpp:63-121 | so in every state reached without such a SET, by clocks not past now, two collections at now leave exactly what the clock says |
| StoreProperties.TwoRunsAreEnough | src/sources/services/garbage_collector_service.cpp:63-121 | a third collection at that instant changes nothing |
| StoreProperties.SettledDeadline | src/sources/services/garbage_collector_service.cpp:123-137 | the next deadline of a settled storage is not in the past and is the minimum of its entries' deadlines |
| StoreProperties.CollectWorks | src/sources/services/garbage_collector_service.cpp:63-121 | counting two for an unflagged entry and one for a flagged one, a collection reduces the count by exactly the entries due, and changes nothing if none is |
| StoreProperties.LateRunsWork | src/sources/services/garbage_collector_service.cpp:63-137 | past the deadline it asked for, a collection always reduces that count |
| StoreProperties.EarlyRunIdles | src/sources/services/garbage_collector_service.cpp:70-76 | exactly at an erasure deadline it does nothing and asks for the same deadline again |
| StoreProperties.DrainsWithin | src/sources/services/garbage_collector_service.cpp:60-145 | as many late collections as that count empty the storage |
| TimerProperties.TimerOnlyCollects | src/sources/services/garbage_collector_service.cpp:32-47 | in a run of timer steps alone, storage is changed by the collections and by nothing else |
| TimerProperties.PunctualIsLate | src/sources/services/garbage_collector_service.cpp:39-46 | in such a run, collections past the timer armed by the one before are past the earliest deadline of the storage they find |
| TimerProperties.ArmedStorageDrains | src/sources/services/garbage_collector_service.cpp:60-145 | from a timer armed no earlier than the first deadline, a storage of n entries is empty after 2n collections, each past the timer that woke it |
| TimerProperties.StorageDrains | src/sources/services/garbage_collector_service.cpp:60-145 | from any timer and queue one collection more is enough, the first at any time and each other past the timer armed by the one before |
| StoreProperties.NoOverAdmission | src/sources/services/update_service.cpp:27-54 | over any run without patch or wrap-around on a counter that stays stored, the counter is the initial quota plus accepted increases less accepted decreases, so decreases never exceed what was granted |
| StoreProperties.DecreaseRefusedIff | src/sources/services/update_service.cpp:42-51 | in such a run a decrease of a visible counter is refused if and only if it exceeds the balance, and a refusal changes nothing |
| StoreProperties.IncreaseWraps | src/sources/services/update_service.cpp:39-41 | an increase past the counter's width loses exactly one period |
| StoreProperties.UpdatesUndo | src/sources/services/update_service.cpp:27-101 | decrease undoes increase and increase undoes decrease: on every TTL, and on a quota whenever the first was accepted without wrapping |
| StoreProperties.CommandsKeepOtherKeys | src/sources/commands/update_command.cpp:72-88 | a command changes no key but its own |
| MessagesPool.Pool.Prepare | src/sources/messages_pool.cpp:26-36 | fills a pool with distinct, new, idle messages and twice the room |
| MessagesPool.Pool.Recycle | src/sources/messages_pool.cpp:38-58 | moves exactly the idle messages back, emptied and in order, and keeps the busy ones untouched and in order |
| MessagesPool.Pool.Fit | src/sources/messages_pool.cpp:60-66 | keeps the first 20480 |
| MessagesPool.Pool.Refill | src/sources/messages_pool.cpp:75-80 | ends, with as many new messages as asked for |
| MessagesPool.Pool.HandOut | src/sources/messages_pool.cpp:82-88 | the last available message changes hands and is marked as in use |
| MessagesPool.Pool.TakeOne | src/sources/messages_pool.cpp:68-89 | returns an emptied message that nobody was using; both buffers stay free of duplicates and disjoint, their contents are stated exactly, and messages in use are untouched |
| MessagesPool.PushesReach | src/sources/messages_pool.cpp:75-80 | pushing onto a full buffer stops growing it, so a refill to more than the capacity would never end |
| MessagesPool.PushAllKeepsNewest | src/sources/messages_pool.cpp:28-51 | pushing keeps the newest elements there is room for, in order |
| MessagesPool.KeepAndDrop | src/sources/messages_pool.cpp:40-57 | recycling sends each message one way, the busy to stay and the idle to go back |
| MessagesPool.UnpreparedRefill | src/sources/messages_pool.cpp:75-80 | in a pool that was never prepared no refill gets anywhere |
| WriteQueue.Connection.OnSend | src/include/throttr/connection.ipp:307-315 | with room, appends to the queue and keeps a write outstanding exactly when the queue is non-empty, of its front; without room, evicts that front and leaves the write in progress alone |
| WriteQueue.Connection.OnWrite | src/include/throttr/connection.ipp:266-295 | records the message that was written, takes off and releases the front of the queue and starts the next; an error stops the queue for good |
| WriteQueue.Connection.WriteNext | src/include/throttr/connection.ipp:317-352 | writes the front message |
| WriteQueue.OverflowLosesIff | src/include/throttr/connection.ipp:38 | written and pending messages make up the messages sent if and only if the queue had room |
| WriteQueue.SendOnFull | src/include/throttr/connection.ipp:280-315 | a message sent on a full queue loses exactly the one behind the message being written: it is taken off unwritten by the next completion |
| WriteQueue.Overflow | src/include/throttr/connection.ipp:38 | a new connection sent 1025 messages ends with one that is neither written nor pending |
| Delivery.ConnectedSound | src/include/throttr/connection.ipp:35-38 | a new connection keeps the invariant of all deliveries |
| Delivery.PostedSound | src/include/throttr/connection.ipp:161-167 | so does posting a message that is not in flight |
| Delivery.DeliveredSound | src/include/throttr/connection.ipp:307-315 | so does the oldest posted message joining its queue |
| Delivery.CompletedSound | src/include/throttr/connection.ipp:280-294 | so does the end of the write of a front message |
| Delivery.SoundDelivery | src/include/throttr/connection.ipp:186-234 | under the invariant a client has received a prefix of the responses made to it, in order and each once, and all of them when nothing is pending or posted |
| EventLoop.Executor.TakeMessage | src/include/throttr/connection.ipp:228 | amid any connections and posted messages, the pool hands out an empty message that is not in flight, and touches none that is |
| EventLoop.Executor.Answer | src/include/throttr/connection.ipp:230-231 | filling that message changes nothing in flight |
| EventLoop.Executor.FreeIsNowhere | src/sources/messages_pool.cpp:68-89 | a message not in flight is in no connection's queue, is not being written, and is posted to none |
| EventLoop.Executor.Post | src/include/throttr/connection.ipp:161-167 | send posts the message, with its bytes, behind all earlier ones |
| EventLoop.Executor.DeliverOne | src/include/throttr/connection.ipp:307-315 | the oldest posted message joins its connection's queue and no other connection changes |
| EventLoop.Executor.CompleteWrite | src/include/throttr/connection.ipp:266-295 | a completed write gives the client the bytes its message was posted with, and keeps everything else in place and order |
| EventLoop.Executor.RepliesInOrder | src/include/throttr/connection.ipp:186-234 | in every valid state a client has received a prefix of the bytes of its responses in request order, and all of them when nothing is posted or pending |
| EventLoop.Executor.Respond | src/include/throttr/connection.ipp:228-233 | a reply puts its bytes behind all that are posted |
| EventLoop.Executor.DeliverNext | src/include/throttr/connection.ipp:307-315 | if a message is posted and its queue has room, exactly the oldest one moves there; otherwise nothing moves |
| EventLoop.Executor.CompleteNext | src/include/throttr/connection.ipp:266-295 | if a write is in progress, its end adds exactly its bytes to what the client has received, or fails the connection; otherwise nothing changes |
| EventLoop.Executor.Handle | src/include/throttr/connection.ipp:161-320 | on the objects, each event moves bytes as it does on plain queues |
| EventLoop.Executor.RunEvents | src/include/throttr/connection.ipp:161-320 | over any interleaving of events on any connections, with messages recycled throughout, bytes flow as through plain queues; a client's responses are those the script made to it; the bytes it received are a prefix of their concatenation, and all of them after a script that ends flushing |
| EventLoop.OneReply | src/include/throttr/connection.ipp:161-320 | one response of one byte, posted, delivered and written, is received |
| Traffic.NextTells | src/include/throttr/connection.ipp:161-320 | an event neither loses, repeats nor reorders what a client was or is to be told |
| Traffic.RunTells | src/include/throttr/connection.ipp:161-320 | nor does any script: received, waiting and posted bytes are those from before and the responses asked for |
| Traffic.ResponsesAre | src/include/throttr/connection.ipp:186-234 | the responses asked for are the texts of the replies to the connection, in order |
| Traffic.FlushedIsAll | src/include/throttr/connection.ipp:266-320 | after a script that ends with as many deliveries as messages posted and as many completed writes as messages to be sent, with room and without failures, every client has received everything |
| Traffic.FlushesByCount | src/include/throttr/connection.ipp:266-320 | counting replies, deliveries and completed writes in the script is enough to know that it ends so |
| Entries.TypeRoundTrip | src/sources/storage_serializer.cpp:113-180 | an entry type survives its byte if and only if it is not a catch-all for a byte that already has an enumerator |
| Entries.TtlRoundTrip | src/sources/storage_serializer.cpp:114-184 | likewise for a TTL type |
| Serializer.OutStream.WriteRaw | src/sources/storage_serializer.cpp:36-41 | puts the bytes of a number, least significant first |
| Serializer.Dump | src/sources/storage_serializer.cpp:84-141 | the file is the header, the count and the records of the unexpired entries |
| Serializer.InStream.ReadRaw | src/sources/storage_serializer.cpp:43-57 | reads a number, repeating the last byte past the end of the file |
| Serializer.InStream.ReadBytes | src/sources/storage_serializer.cpp:72-81 | reads bytes, zeros past the end of the file |
| Serializer.InStream.ReadRecord | src/sources/storage_serializer.cpp:169-213 | reads one record, values and metrics included |
| Serializer.Restore | src/sources/storage_serializer.cpp:143-219 | on any file at all: refuses a wrong magic, version or value size, and otherwise stores what the records decode to, keeping keys already there |
| Serializer.GetRecordExact | src/sources/storage_serializer.cpp:169-213 | reading a record consumes exactly the bytes written for it and returns it |
| Serializer.DumpRoundTrip | src/sources/storage_serializer.cpp:84-219 | restoring a dump decodes every record written, values and metrics included, and stops at its last byte |
| Serializer.RestoreKeepsTheLiveEntries | src/sources/storage_serializer.cpp:143-219 | restored into empty storage, a dump leaves exactly the unexpired keys with their type, TTL type and expiration |
| Serializer.RefusedIff | src/sources/storage_serializer.cpp:149-162 | which files are refused, and with which of the three errors, by their first six bytes |
| Serializer.GenerateShort | src/sources/storage_serializer.cpp:43-57 | the missing bytes of a number repeat the last one read, or are zero |
| Serializer.GetBytesShort | src/sources/storage_serializer.cpp:72-81 | the missing bytes of a key or a buffer are zero |
| Serializer.DumpHeader | src/sources/storage_serializer.cpp:90-100 | the header of a dump: magic, version, value size and the number of unexpired entries |
| Serializer.RecordSays | src/sources/storage_serializer.cpp:107-123 | where the bytes of a record give key, deadline, types, metrics and value |
| Serializer.MetricsSay | src/sources/storage_serializer.cpp:116-123 | which of the six words is which metric |
| Serializer.ValueSays | src/sources/storage_serializer.cpp:125-140 | a counter is its value; a buffer is its length and its bytes; any other type writes nothing |
| Serializer.LiveInOrder | src/sources/storage_serializer.cpp:102-105 | expired entries are left out and the others keep their order |
| Serializer.EmplaceAllKeeps | src/sources/storage_serializer.cpp:216 | restoring adds the keys of the records and never replaces what was stored |
| Serializer.RestoredValueIff | src/sources/storage_serializer.cpp:186-219 | the value survives a restore if and only if it was zero: a zero counter, or a buffer of exactly one zeroed value |
| Serializer.RestoredCounter | src/sources/storage_serializer.cpp:186-219 | a counter dumped at one is restored at zero |
| Subscriptions.WithoutRemovesAllCopies | src/sources/commands/unsubscribe_command.cpp:63-77 | what is left has no copy of the subscription and every other one as often as before |
| Subscriptions.ScanIsComplete | src/sources/services/subscriptions_service.cpp:21-32 | the scan finds every subscription there is; it reports one that is not there if and only if the connection has another and a greater connection has the channel |
| Subscriptions.ScanIsUnsound | src/sources/services/subscriptions_service.cpp:24-30 | two connections for which the scan reports a subscription that is not there |
| Subscriptions.Index.Insert | src/sources/commands/subscribe_command.cpp:45 | adds one copy, behind those of smaller and of the same connection and before the greater |
| Subscriptions.Index.EraseAll | src/include/throttr/state.hpp:313-318 | leaves exactly the other connections' subscriptions, every copy and in order |
| Subscriptions.OthersStay | src/include/throttr/state.hpp:313-318 | every other connection's subscription stays as often as it was there |
| Subscriptions.Index.IsSubscribed | src/sources/services/subscriptions_service.cpp:21-32 | the loop computes the scan |
| Subscriptions.Index.Collect | src/sources/commands/unsubscribe_command.cpp:63-72 | collects the positions of all copies of the subscription, in order |
| Subscriptions.Index.Erase | src/sources/commands/unsubscribe_command.cpp:74-77 | erasing them one by one removes all copies and nothing else |
| Subscriptions.Index.Unsubscribe | src/sources/commands/unsubscribe_command.cpp:46-79 | removes every copy of the subscription and nothing else; the reply is the scan's |
| Registry.FillEvent | src/sources/commands/publish_command.cpp:105-138 | the message sends exactly the EVENT frame, as one segment over a buffer of exactly its size |
| Registry.EventReads | src/sources/commands/publish_command.cpp:116-136 | a receiver reads type, channel length, payload size, channel and payload, in that order |
| Registry.EventIsOneMessage | src/sources/services/messages_service.cpp:152-161 | a receiver's framer cuts an EVENT frame as exactly one message |
| Registry.State.Register | src/include/throttr/state.hpp:266-291 | the first half of join: the connection is in one map, and every subscription still belongs to a registered connection |
| Registry.State.SubscribeOnJoin | src/include/throttr/state.hpp:293-303 | the second half adds the connection's two subscriptions |
| Registry.State.EraseOnLeave | src/include/throttr/state.hpp:313-318 | the first half of leave removes all its subscriptions and leaves every other as often as it was there |
| Registry.State.Deregister | src/include/throttr/state.hpp:320-345 | the second half removes it from its map, and no subscription is left behind |
| Registry.State.Subscribe | src/sources/commands/subscribe_command.cpp:35-49 | adds one subscription and keeps the registry consistent |
| Registry.State.Unsubscribe | src/sources/commands/unsubscribe_command.cpp:28-90 | removes every copy of one subscription and keeps the registry consistent |
| Registry.State.DeliverTo | src/sources/commands/publish_command.cpp:76-174 | a registered connection is sent the frame once, a vanished one not at all |
| Registry.State.Publish | src/sources/commands/publish_command.cpp:43-187 | taken as one step between the halves of joins and leaves, succeeds if and only if the channel has a subscription, and sends each matching subscription's connection exactly one frame, which announces the channel and the payload |
| MetricCounters.MarksConserved | src/sources/services/metrics_collector_service.cpp:53-67 | however marks interleave with the collector's atomic steps, every mark is in the counter, in the collector's local or in the accumulator, up to turns of the 64-bit counters |
| MetricCounters.MarksConservedExactly | src/sources/services/metrics_collector_service.cpp:53-67 | and exactly so for fewer than 2^64 steps |
| MetricCounters.MinutesConserve | src/sources/services/metrics_collector_service.cpp:58-63 | the per-minute figures stored, the one being taken and the count sum to the marks, up to turns of the counters |
| MetricCounters.SnapshotsConserve | src/include/throttr/metric.hpp:49-61 | however the atomic operations of marks and computes interleave, the snapshots shown, the one being taken and the count sum to what was marked; so does the accumulator with the marks between their two additions, and alone when there are none; up to turns of the counters |
| MetricCounters.Metric.Mark | src/include/throttr/metric.hpp:49-53 | keeps: what was marked equals the snapshots' sum plus the count, and the accumulator has all of it |
| MetricCounters.Metric.Compute | src/include/throttr/metric.hpp:58-61 | a snapshot moves the count to the minute's figure and loses nothing |

## Left out

- Sockets, acceptors, the resolver, the agent's reconnection, signals, threads and program options: reads, completed writes and timers appear as events with parameters.
- The request parsers and message builders of the protocol library: decoded requests are inputs; `Requests.Encode` writes what the size functions expect.
- Debug output, hexadecimal dumps, the version text, and the INFO, STAT, WHOAMI, CONNECTION and CHANNEL replies: fixed layouts without a property that spans functions.
- The pool of buffers: nothing ever clears its `in_use_` flag, so it recycles nothing.
- The custom allocator, thread-local storage, memory ordering and unsynchronised access to the containers: a command is one step; `Pool` is the pool of one thread.
- The collector's lock: `run` re-entered from `schedule_timer` is a further step, so a deadlock is not expressed.
- How long a segment into a storage entry stays valid after its command: `Foreign` segments hold their bytes.
- Framing.Reader.OnRead: does not cover type bytes of 32 and above, which index past the table, nor bytes beyond the read window; both are preconditions.
- Framing.ParseIsTheFraming: is stated for values of up to four bytes, because with eight the sizes can wrap (`MessageSizes.EightByteValuesWrap`).
- EventLoop.Executor.DeliverOne: delivers only to a queue with room, because a full one drops a message and with it the order of replies; `WriteQueue.SendOnFull` says which one.
- EventLoop.Executor.RunEvents: a delivery to a full queue waits, and the set of connections does not change during the script; `Connect` adds connections between scripts.
- MessagesPool.Pool.TakeOne: does not cover a pool with less room than the refill asks for, because the refill then never ends (`MessagesPool.PushesReach`).
- StorageServer.Server.Use: does not model a TTL whose conversion to nanoseconds overflows a signed 64-bit count, which is undefined; `Time.LongUnitsOverflow` gives the bound.
- StorageServer.Server.UpdateEntry: likewise for the amount of a TTL change.
- StorageServer.Server.PurgeEntry: does not count the read of a found entry, like FindOrFail.
- StorageServer.Server.FindOrFail: does not count reads; the read and write marks of entries are modelled on their own in `MetricCounters`.
- Store.Step: the storage is a map by key; the container's own order appears only as the `order` parameters.
- ConnectionsResponse.HandleFragmentedConnections: each map is a sequence in its iteration order, and the four lock sections are one step.
- ChannelsResponse.HandleFragmentedChannels: takes the subscriptions in the order of the channel index, as the precondition `Grouped`.
- Registry.State.Publish: the channel's range in the second index is the parameter `matching`, related to the first by its contents only; each frame is built in a new message, the pool being the subject of `EventLoop.Executor`; the metrics of publishing are left out.
- Registry.State.Register: connection identifiers are fresh, as the random generator makes them.
- Serializer.Restore: arms no timer, as the code arms none, so the store's guarantees start from empty storage; opening the file is left out.
- MetricCounters.SnapshotsConserve: takes one snapshot at a time, as the collector does on its strand.
