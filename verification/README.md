# libuavcan transport and marshalling: a verified model

This project models the CAN transport stack of libuavcan and its bit-level marshalling, and proves what they promise. Nothing here was executed: the statements below are proved by the Dafny verifier about the model.

What is modelled, module by module:

- `Transfer`, `TransferCrc`, `Can`, `Frames`: transfer identifiers with their wrap-around, the transfer checksum in both its forms, bus arbitration (ISO 11898-1), and the mapping between transport frames and CAN frames.
- `TransferBuffer`, `Receiver`, `ReceiverTrace`, `RedundantBus`: the block-chain buffer, the reassembly state machine, what is true of it over arbitrary frames, and what it delivers over redundant interfaces.
- `Sender`, `Wire`, `Listener`, `EndToEnd`, `TransferSeries`: cutting payloads into frames, numbering transfers, the way of a transfer through wire and receiver, multiplexing by source and transfer type, and delivery to the application among interleaved senders, of one transfer and of any number in a row.
- `Words`, `AcceptanceFilter`: hardware acceptance filters built from subscriptions and merged until they fit.
- `TxQueue`, `CanIo`: the prioritised transmission queue under a quota, and sending over several interfaces.
- `Bits`, `BitArrayCopy`, `BitStreams`, `ScalarCodecs`, `ArrayCodecs`, `SquareMatrix`: bit copying, bit streams, integers of any bit length, dynamic arrays with and without tail array optimisation, square matrix packing.
- `TimeSyncSlave`, `Deadlines`, `LinkedLists`, `Pool`, `PoolMaps`: the time synchronisation slave, the deadline scheduler with its timers, the linked list, the pool allocator and the map over pool blocks.

Conventions. Bytes are 8-bit vectors, the checksum is a 16-bit vector, CAN identifiers and times (microseconds) are numbers. An object that the source updates in place is a class whose methods are proved against a function on values; the theorems are about that function. Drivers, clocks, memory and callbacks are parameters: what a driver answers, which time is read, whether an allocation succeeds, what a handler does when it is called. A loop that the source ends only when a driver or clock lets it takes a finite script of such answers, and its result is `None` if the script ends first.

Where the code does not do what one would expect, the model follows the code, and a lemma says so:

- A transfer that fails its checksum leaves its buffer behind. The next transfer over the same interface is delivered as it was sent exactly if it is a single frame, is not shorter, or starts more than a second later (`EndToEnd.DeliveredAfterMismatchIff`). Otherwise it can be lost (`EndToEnd.LeftoverCanSwallowTransfer`) or delivered with stale bytes at its end (`EndToEnd.LeftoverCanCorruptTransfer`).
- A receiver between two transfers takes a frame that is not the first of one, if identifier and toggle bit fit (`ReceiverTrace.StartIsMissedIff`), and the lone last frame of a transfer can complete it (`ReceiverTrace.LoneLastFrameCompletes`).
- An interface that lags by more than half the identifier range can take the receiver back, exactly under the condition of `RedundantBus.TurnsBackIff`; `RedundantBus.LaggingInterfaceGoesBack` is a run in which it does.
- A time master is left for one with a higher node identifier when the last update is too old, although it may have been heard since (`TimeSyncSlave.MasterRisesIff`, `TimeSyncSlave.HeardMasterCanBeLeft`).
- A frame whose sender blocks up to its deadline gets into no queue: the push comes too late (`CanIo.LatePushesAddNothing`). A frame offered directly overtakes a queued one of the same priority exactly if the driver refuses the one and takes the other (`CanIo.OvertakesIff`). It has to wait for a queued one of lower priority exactly if an expired frame of higher priority is still in front of that one (`CanIo.LowerPriorityGoesFirstIff`).
- A failed write to a bit stream can spoil the next one (`BitStreams.FailedWriteIsHarmlessIff`).
- Merging more than 256 acceptance filters drops subscriptions, because a search index is cut to eight bits. With 256 hardware filters or more, nothing is lost exactly if nothing is merged (`AcceptanceFilter.NothingIsLostIff`).
- An anonymous frame keeps only two bits of its data type identifier (`Frames.WireIsLosslessIff`).
- A block that the pool refuses still counts against the quota of a transmission queue, for good (`TxQueue.PushLeaksIff`); as many refusals as the quota is large put the queue out of service (`TxQueue.RefusalsExhaustQueue`, `TxQueue.ExhaustedQueueStaysEmpty`).
- A matrix of which no element is a number comes back as zeros (`SquareMatrix.PackingIsLosslessIff`).

## Model

| member | source | states |
|---|---|---|
| Transfer.ForwardDistanceIsLeast | libuavcan/src/transport/uc_transfer.cpp:44-54 | The forward distance is the least number of increments that leads from one transfer identifier to the other. |
| Transfer.IncrementByIsModular | libuavcan/include/uavcan/transport/transfer.hpp:93-107 | Repeated increments count modulo 32. |
| Transfer.ForwardDistanceOfIndices | libuavcan/src/transport/uc_transfer.cpp:44-54 | The distance between wrapped absolute indices is their difference modulo 32. |
| Can.PriorityIsArbitration | libuavcan/src/driver/uc_can.cpp:19-57 | The priority comparison of two frames, standard or extended, data or remote, is the order of the bits they drive during arbitration. |
| TransferCrc.TableFormIsBitwiseForm | libuavcan/include/uavcan/transport/crc.hpp:43-63 | The table-driven step equals the shift-register step for every checksum value and byte. |
| TransferCrc.TableIsShiftRegister | libuavcan/src/transport/uc_crc.cpp:13-47 | Every entry of the 256-entry table is the shift register's response to its index. |
| TransferCrc.CrcOfConcatenation | libuavcan/include/uavcan/transport/crc.hpp:66-73 | The checksum of a concatenation is the checksum of the second part started from that of the first, so any split into pieces gives the same result. |
| TransferCrc.BytesAreTold | libuavcan/include/uavcan/transport/crc.hpp:43-63 | From the same value, two different bytes never lead to the same checksum. |
| TransferCrc.StartValuesAreTold | libuavcan/include/uavcan/transport/crc.hpp:43-73 | Different start values never lead to the same checksum of the same bytes, so a transfer of a data type with another checksum base is told apart. |
| TransferCrc.TwoBytesReachAnyChecksum | libuavcan/include/uavcan/transport/crc.hpp:43-63 | From every checksum value, two more bytes can lead to any other. |
| TransferCrc.TransferCRC.AddBitwise | libuavcan/include/uavcan/transport/crc.hpp:44-58 | The eight-step bit loop adds one byte to the checksum. |
| TransferCrc.TransferCRC.AddTable | libuavcan/include/uavcan/transport/crc.hpp:60-63 | The table step has the same effect as the bit loop. |
| TransferCrc.TransferCRC.Add | libuavcan/include/uavcan/transport/crc.hpp:66-73 | The byte loop computes the checksum of the whole string. |
| Frames.WireFormat | libuavcan/src/transport/uc_frame.cpp:112-179 | The identifier and the tail byte of a compiled frame in plain numbers: where priority, data type, service bits, destination and source are, how an anonymous message carries fourteen bits of its checksum, and where start, end, toggle and transfer identifier are. |
| Frames.OrDigit | libuavcan/src/transport/uc_frame.cpp:164-176 | The discriminator is merged into the data type digit by digit. |
| Frames.CompilesIff | libuavcan/src/transport/uc_frame.cpp:112-179 | Exactly which frames can be sent. |
| Frames.ParsesIff | libuavcan/src/transport/uc_frame.cpp:34-110 | Exactly which CAN frames are accepted. |
| Frames.ParseOfCompile | libuavcan/src/transport/uc_frame.cpp:34-179 | Parsing the CAN frame of any valid frame gives the frame back, with the data type an anonymous frame can carry. |
| Frames.WireIsLosslessIff | libuavcan/src/transport/uc_frame.cpp:34-179 | Parse after compile is the identity exactly for frames with a source and for anonymous ones with a data type below four. |
| Frames.CompileOfParse | libuavcan/src/transport/uc_frame.cpp:34-179 | An accepted CAN frame is reproduced, identifier and data, exactly if it has a source or its discriminator is the checksum's. |
| Frames.LowerPriorityWins | libuavcan/src/transport/uc_frame.cpp:123-125 | Of two compiled frames, the one with the numerically lower transfer priority wins arbitration. |
| TransferBuffer.FlatReadOfWrite | libuavcan/src/transport/uc_transfer_buffer.cpp:14-53 | In the flat buffer a read sees exactly what was written, and nothing else has changed. |
| TransferBuffer.BlockWrite | libuavcan/src/transport/uc_transfer_buffer.cpp:113-125 | A block takes exactly the bytes bound for its positions, and the cursors move past them. |
| TransferBuffer.BlockRead | libuavcan/src/transport/uc_transfer_buffer.cpp:99-111 | A block yields exactly the requested bytes at its positions. |
| TransferBuffer.StoredIsFlatWrite | libuavcan/src/transport/uc_transfer_buffer.cpp:187-256 | Storing into a chain of blocks, flattened, is a write into the flat buffer. |
| TransferBuffer.TransferBufferManagerEntry.Write | libuavcan/src/transport/uc_transfer_buffer.cpp:187-256 | For any allocation failures, the number of bytes stored is exact and the contents change as those of a flat buffer do. The chain covers the write position afterwards if and only if the offset is beyond the size limit, within the chain, or within what the memory allows it to grow to for a write that is not empty. |
| TransferBuffer.TransferBufferManagerEntry.Read | libuavcan/src/transport/uc_transfer_buffer.cpp:151-185 | A read returns the clipped slice of the contents. |
| TransferBuffer.TransferBufferManagerEntry.Reset | libuavcan/src/transport/uc_transfer_buffer.cpp:258-270 | A reset leaves no block and no contents. |
| Receiver.ReactionIsConsistent | libuavcan/src/transport/uc_transfer_receiver.cpp:34-239 | Every reaction keeps the write position within the buffer, the buffer within its limit and the averaged interval within 1 to 65535 ms. |
| Receiver.IntervalIsAveraged | libuavcan/src/transport/uc_transfer_receiver.cpp:34-48 | The average has seven parts of the old interval and one of the new one in milliseconds, clamped to 16 bits, and lies between them. |
| Receiver.DeviationsAreCounted | libuavcan/src/transport/uc_transfer_receiver.cpp:57-179 | On the interface that is followed, exactly a garbled frame, a start in the middle of a transfer, a frame out of sequence and a lack of memory are counted as errors, modulo 32. |
| Receiver.LossIsCounted | libuavcan/src/transport/uc_transfer_receiver.cpp:186-239 | A restart counts as an error exactly if it leaves a transfer out, and a frame over another interface as none. |
| Receiver.StrayFrameIsHarmless | libuavcan/src/transport/uc_transfer_receiver.cpp:57-239 | A frame that neither starts a transfer nor continues the current one changes nothing but the count of errors. |
| Receiver.StrayFrameForgetsAll | libuavcan/src/transport/uc_transfer_receiver.cpp:186-230 | If it comes to a receiver that is new or has timed out, everything is forgotten and the next transfer is awaited. |
| Receiver.TransferReceiver.UpdateTransferTimings | libuavcan/src/transport/uc_transfer_receiver.cpp:34-48 | The transfer interval becomes the clamped running average of transfers that follow each other. |
| Receiver.TransferReceiver.Validate | libuavcan/src/transport/uc_transfer_receiver.cpp:57-94 | A frame is taken exactly if it is the expected one; on the interface that is followed every deviation is counted, and a repeated start of transfer is counted but not refused. |
| Receiver.TransferReceiver.WritePayload | libuavcan/src/transport/uc_transfer_receiver.cpp:96-129 | The payload behind the checksum field goes to the write position; a short write fails. |
| Receiver.TransferReceiver.ReceiveValidated | libuavcan/src/transport/uc_transfer_receiver.cpp:131-179 | A validated frame leads to exactly the specified state, buffer and result, with every failure path. |
| Receiver.TransferReceiver.NeedRestart | libuavcan/src/transport/uc_transfer_receiver.cpp:186-215 | The restart decision from timeout, interface, start of transfer and identifier distance. |
| Receiver.TransferReceiver.AddFrame | libuavcan/src/transport/uc_transfer_receiver.cpp:186-239 | The whole reaction to a frame is the specified one, for every state, frame and memory. |
| ReceiverTrace.StepIsAccounted | libuavcan/src/transport/uc_transfer_receiver.cpp:34-239 | One frame keeps the trace invariant: frames taken since the last restart share identifier and interface, toggles alternate from zero, the write position is the sum of their payloads and the buffer prefix is their concatenation. A completion is such a complete transfer. |
| ReceiverTrace.RunIsAccounted | libuavcan/src/transport/uc_transfer_receiver.cpp:34-239 | The trace invariant holds after any sequence of frames, lost, repeated or garbled, and the contents of every completed transfer begin with the concatenation of frames of one transfer. |
| ReceiverTrace.FreshIsAccounted | libuavcan/include/uavcan/transport/transfer_receiver.hpp:71-78 | A new receiver satisfies the trace invariant. |
| ReceiverTrace.StartIsMissedIff | libuavcan/src/transport/uc_transfer_receiver.cpp:57-239 | A transfer is accepted without its start if and only if a receiver that has taken nothing yet takes a frame that is not a start. |
| ReceiverTrace.CompletionsBeginWithStart | libuavcan/src/transport/uc_transfer_receiver.cpp:57-239 | Over every run in which that does not happen, each completed transfer begins with its start and is compared with the checksum announced in it. |
| ReceiverTrace.LoneLastFrameCompletes | libuavcan/src/transport/uc_transfer_receiver.cpp:57-179 | A run in which it happens: the last frame alone completes a transfer, with a checksum that nobody announced. |
| RedundantBus.TurnsBackIff | libuavcan/src/transport/uc_transfer_receiver.cpp:186-239 | If every interface is in order, the receiver turns to an older transfer if and only if it has timed out, or the transfer starts after the switch delay with an identifier that is less than half the range ahead, modulo 32; within the design limits that cannot be. |
| RedundantBus.StepMovesForward | libuavcan/src/transport/uc_transfer_receiver.cpp:186-239 | Otherwise the absolute index that the receiver expects never goes back, and moves past what is delivered. |
| RedundantBus.OrderlyRunDeliversInOrder | libuavcan/src/transport/uc_transfer_receiver.cpp:186-239 | Over every interleaving of interfaces that are in order, however far apart and with any pauses: as long as no older transfer looks newer in that sense, the absolute indices of delivered transfers strictly increase. |
| RedundantBus.DeliveredInOrder | libuavcan/src/transport/uc_transfer_receiver.cpp:186-239 | Over every interleaving of interfaces that is in order per interface, within the identifier window and without timeout, the absolute indices of delivered transfers strictly increase. |
| RedundantBus.IdleBusDeliversInOrder | libuavcan/src/transport/uc_transfer_receiver.cpp:186-239 | A receiver that starts from scratch delivers strictly increasing indices over every such interleaving. |
| RedundantBus.GoesBackIff | libuavcan/src/transport/uc_transfer_receiver.cpp:186-239 | Without a timeout, the index that an initialised receiver expects goes back if and only if an older transfer looks newer. |
| RedundantBus.LaggingInterfaceGoesBack | libuavcan/src/transport/uc_transfer_receiver.cpp:186-239 | The witness: a run in which an old transfer is delivered after newer ones. |
| Sender.TransferFormat | libuavcan/src/transport/uc_transfer_sender.cpp:76-140 | Checksum and payload in one stream, cut into pieces of seven bytes; start, end and toggle bits of every frame. |
| Sender.SentUpToFailure | libuavcan/src/transport/uc_transfer_sender.cpp:27-144 | What goes out and what is returned, for every pattern of dispatcher failures and for a node without an identifier. |
| Sender.TransferSender.Send | libuavcan/src/transport/uc_transfer_sender.cpp:27-144 | Exactly the frames of the transfer go out, in order, up to the first dispatcher failure; the result is that failure, the result of the only frame, or the number of frames; anonymous nodes send single-frame messages only. |
| Sender.TransferSender.SendFrames | libuavcan/src/transport/uc_transfer_sender.cpp:76-140 | The loop that rewrites one frame object sends the ceil((len + 2) / 7) frames of the transfer. |
| Sender.TransferSender.SendNext | libuavcan/src/transport/uc_transfer_sender.cpp:146-171 | The transfer goes out with the tracked identifier, which is then incremented, and the entry lives on for twice the transfer interval or two seconds after the deadline; without memory to track it nothing is sent and nothing changes. |
| Sender.TransferSender.Cleanup | libuavcan/src/transport/uc_outgoing_transfer_registry.cpp:51-54 | Exactly the entries whose deadline has come are forgotten. |
| Sender.TidsAreConsecutive | libuavcan/src/transport/uc_outgoing_transfer_registry.cpp:26-54 | Over any run of sending and cleaning up, the transfers of a key that is not forgotten in between are numbered consecutively modulo 32. |
| Sender.ForgottenStartsOver | libuavcan/include/uavcan/transport/outgoing_transfer_registry.hpp:72-95 | A key that has been forgotten is numbered from zero again. |
| Wire.RoundTrip | libuavcan/src/transport/uc_transfer_sender.cpp:76-140 | For every payload over seven bytes that fits, the sender's frames, compiled and parsed, give no completion until the last one, then exactly the payload laid over what was left in the buffer, with its checksum. |
| Wire.EveryTransferCanBeCarried | libuavcan/src/transport/uc_frame.cpp:112-179 | All frames of every valid transfer, of one frame or many, compile and are accepted by the parser, so the theorems about carried transfers apply to each of them. |
| Wire.FreshReceiverAdmits | libuavcan/src/transport/uc_transfer_receiver.cpp:186-215 | A new receiver takes the first frame of any transfer. |
| Wire.StartIsAdmittedIff | libuavcan/src/transport/uc_transfer_receiver.cpp:186-239 | On the interface it follows, a receiver takes the start of a transfer if and only if it is not that of the previous transfer, nor a repetition within the switch delay of the one it is in. |
| Wire.StartElsewhereIsAdmittedIff | libuavcan/src/transport/uc_transfer_receiver.cpp:186-239 | On another interface, if and only if the switch delay has passed and the identifier is less than half the range ahead. |
| Listener.StepIsWellFormed | libuavcan/src/transport/uc_transfer_listener.cpp:135-238 | In every reachable state each buffer has a live receiver and each receiver is consistent with its buffer. |
| Listener.CleanupLeavesNoOrphans | libuavcan/src/transport/uc_transfer_listener.cpp:196-200 | After a cleanup, no receivers means no buffers: the assertion of cleanup always holds. |
| Listener.AnonymousIsDeliveredIff | libuavcan/src/transport/uc_transfer_listener.cpp:180-238 | A frame without a source is delivered at once if and only if it is a whole message to everybody and the listener allows it, and changes nothing. |
| Listener.SenderBecomesKnownIff | libuavcan/src/transport/uc_transfer_listener.cpp:202-220 | A sender gets a receiver if and only if a transfer starts and there is memory; otherwise the frame is ignored. |
| Listener.SourcesDoNotInterfere | libuavcan/src/transport/uc_transfer_listener.cpp:135-238 | For any interleaving, the deliveries of one source are those of its own frames run alone. |
| Listener.TransferListener.CheckPayloadCrc | libuavcan/src/transport/uc_transfer_listener.cpp:106-133 | The computation in pieces of sixteen bytes decides whether the checksum of the whole contents is the expected one. |
| Listener.TransferListener.HandleReception | libuavcan/src/transport/uc_transfer_listener.cpp:135-178 | A reaction is followed by exactly the specified delivery; a buffer is released on delivery and kept on a checksum mismatch. |
| Listener.TransferListener.HandleFrame | libuavcan/src/transport/uc_transfer_listener.cpp:180-238 | The whole step for a frame, tracked, new or anonymous, is the specified one. |
| Listener.TransferListener.Cleanup | libuavcan/src/transport/uc_transfer_listener.cpp:85-101 | Exactly the timed-out receivers go, with their buffers. |
| EndToEnd.TransferArrives | libuavcan/src/transport/uc_transfer_listener.cpp:135-238 | In any state of the listener that admits its first frame, among any frames of other senders and other transfer types and any cleanups before its receiver times out, a multi-frame transfer, with a right or wrong checksum, leaves exactly the specified receiver, buffer and delivery. |
| EndToEnd.TransferIsDelivered | libuavcan/src/transport/uc_transfer_listener.cpp:135-178 | The same setting: an intact transfer is delivered exactly once and as it was sent if and only if what was left in its buffer is not longer. Otherwise it is not delivered, or, if the checksums happen to agree, delivered with the tail of the leftover. |
| EndToEnd.FateOfTransfer | libuavcan/src/transport/uc_transfer_listener.cpp:106-178 | These three fates, stated for the contents that the listener checks and delivers. |
| EndToEnd.SingleFrameIsDelivered | libuavcan/src/transport/uc_transfer_listener.cpp:135-178 | In the same setting, a transfer of at most seven bytes is delivered with its payload whenever its frame is admitted, and what was left in the buffer is dropped. |
| EndToEnd.DeliveredAfterMismatchIff | libuavcan/src/transport/uc_transfer_listener.cpp:135-178 | From an empty listener, among other traffic: after a transfer that fails its checksum, the next one of the same key over the same interface is delivered as it was sent if and only if it is a single frame, is not shorter, or starts more than a second later; both other outcomes are given. |
| EndToEnd.MismatchCanHappen | libuavcan/src/transport/uc_transfer_listener.cpp:161-165 | Every pair of such transfers occurs in a run: the frames of a sender with another checksum base, followed by those of the right one. |
| EndToEnd.LeftoverCanSwallowTransfer | libuavcan/src/transport/uc_transfer_listener.cpp:161-165 | For every payload there is a run in which a corrupted transfer, one byte longer, makes the listener lose the intact transfer that follows within a second. |
| EndToEnd.LeftoverCanCorruptTransfer | libuavcan/src/transport/uc_transfer_listener.cpp:161-165 | For every payload there is a run in which the intact transfer is delivered with two stale bytes at its end. |
| EndToEnd.InterleavedTransferIsDelivered | libuavcan/src/transport/uc_transfer_listener.cpp:202-238 | From an empty listener, among any frames of other nodes and of other transfer types of the same node, and any cleanups before its receiver times out, a transfer reaches the application exactly once and intact. |
| EndToEnd.CutOffArrives | libuavcan/src/transport/uc_transfer_receiver.cpp:96-239 | A transfer whose end is lost is not delivered, and leaves its receiver with what has arrived. |
| EndToEnd.RecoversFromLoss | libuavcan/src/transport/uc_transfer_receiver.cpp:186-239 | Whatever has happened to the receiver of a sender before, the next transfer is delivered as it was sent if its identifier is neither the current nor the previous one, or over another interface if it is ahead and the switch delay has passed. |
| TransferSeries.SeriesIsDelivered | libuavcan/src/transport/uc_transfer_listener.cpp:135-238 | From an empty listener, any number of transfers over one interface, of any lengths that fit, among any other traffic, with any cleanups between them and timely ones during them, and with any transfers and ends of transfers lost as long as identifiers do not repeat: exactly those that get through completely are delivered, each once, as they were sent and in order. |
| TransferSeries.PayloadsAreDelivered | libuavcan/src/transport/uc_transfer_sender.cpp:27-144 | For every list of payloads that fit, what a sender makes of it is delivered payload by payload, with identifiers that count on modulo 32. |
| Words.CountBits | libuavcan/src/transport/uc_can_acceptance_filter_configurator.cpp:246-255 | Clearing the lowest set bit until none is left counts the bits set. |
| Words.OnesAreMonotone | libuavcan/src/transport/uc_can_acceptance_filter_configurator.cpp:246-255 | Fewer mask bits means a smaller rank, strictly. |
| AcceptanceFilter.MergeCoversFirst | libuavcan/src/transport/uc_can_acceptance_filter_configurator.cpp:237-244 | A merged filter passes whatever the first filter passes. |
| AcceptanceFilter.MergeCoversSecond | libuavcan/src/transport/uc_can_acceptance_filter_configurator.cpp:237-244 | A merged filter passes whatever the second filter passes. |
| AcceptanceFilter.MergeIsTightest | libuavcan/src/transport/uc_can_acceptance_filter_configurator.cpp:237-244 | No single filter that covers both is narrower than their merge. |
| AcceptanceFilter.FiltersOnFrame | libuavcan/src/transport/uc_frame.cpp:57-83 | Exactly which compiled frames pass the anonymous, service and message filters. |
| AcceptanceFilter.LoadedFiltersAreExact | libuavcan/src/transport/uc_can_acceptance_filter_configurator.cpp:17-60 | Before merging, a frame with a source passes if and only if the node has subscribed to it; a wanted anonymous frame passes as well. |
| AcceptanceFilter.MergeStepCovers | libuavcan/src/transport/uc_can_acceptance_filter_configurator.cpp:95-97 | Merging two different positions and removing one loses no identifier. |
| AcceptanceFilter.BestPairIsProper | libuavcan/src/transport/uc_can_acceptance_filter_configurator.cpp:74-93 | Up to 256 filters built from subscriptions, the search finds two different positions. |
| AcceptanceFilter.MergesCover | libuavcan/src/transport/uc_can_acceptance_filter_configurator.cpp:74-100 | Any number of merges of up to 256 filters built from subscriptions loses no identifier. |
| AcceptanceFilter.CanAcceptanceFilterConfigurator.LoadInputConfiguration | libuavcan/src/transport/uc_can_acceptance_filter_configurator.cpp:17-60 | The filters of the subscriptions in order, or as many as memory allows and an error. |
| AcceptanceFilter.CanAcceptanceFilterConfigurator.FindBestPair | libuavcan/src/transport/uc_can_acceptance_filter_configurator.cpp:74-93 | The first pair of largest rank among those the loops visit, with the index cut to eight bits. |
| AcceptanceFilter.CanAcceptanceFilterConfigurator.MergeConfigurations | libuavcan/src/transport/uc_can_acceptance_filter_configurator.cpp:62-103 | The loop is a run of merges that ends with as many filters as the hardware has; up to 256 filters, nothing accepted before is lost. |
| AcceptanceFilter.CanAcceptanceFilterConfigurator.ComputeConfiguration | libuavcan/src/transport/uc_can_acceptance_filter_configurator.cpp:169-192 | End to end: up to 256 filters, every valid frame the node has subscribed to passes one of the final filters. With 256 hardware filters or more and distinct types, that is so if and only if the filters fit without merging. |
| AcceptanceFilter.WrappedSearchFindsOnePosition | libuavcan/src/transport/uc_can_acceptance_filter_configurator.cpp:81-83 | Beyond 256 filters for distinct types, the search pairs a message filter with itself. |
| AcceptanceFilter.WrappedMergeDropsType | libuavcan/src/transport/uc_can_acceptance_filter_configurator.cpp:74-97 | Beyond 256 filters for distinct types, a merge leaves exactly the configuration for all types but one. |
| AcceptanceFilter.WrappedMergesDropTypes | libuavcan/src/transport/uc_can_acceptance_filter_configurator.cpp:62-103 | Merging down to 256 filters or more leaves exactly the configuration for a selection of the types, one less for each merge. |
| AcceptanceFilter.NothingIsLostIff | libuavcan/src/transport/uc_can_acceptance_filter_configurator.cpp:62-103 | With distinct types and 256 filters or more in the end, every subscribed frame still passes if and only if nothing was merged. |
| AcceptanceFilter.ManyFiltersKeepSome | libuavcan/src/transport/uc_can_acceptance_filter_configurator.cpp:62-103 | Merging more than 256 filters down to fewer keeps every frame of a selection of the types that fills 256 filters. |
| TxQueue.PushKeeps | libuavcan/src/transport/uc_can_io.cpp:108-178 | Whatever the pool grants, a push keeps the queue sorted by arbitration, first in first out among equals, within quota and balanced. |
| TxQueue.QosIsRank | libuavcan/src/transport/uc_can_io.cpp:41-48 | A persistent frame is above a volatile one, and between frames of one kind arbitration decides. |
| TxQueue.PushIsFair | libuavcan/src/transport/uc_can_io.cpp:108-178 | A push gives up at most one entry with time left: one that outranks neither the new frame nor any other such entry, so that no persistent frame goes while a volatile one stays. With memory within the quota, a frame in time is refused only if all that stays outranks it. |
| TxQueue.LowestIsMinimal | libuavcan/src/transport/uc_can_io.cpp:144-159 | The search finds the first of the entries that outrank no other. |
| TxQueue.PurgeRemovesExpired | libuavcan/src/transport/uc_can_io.cpp:120-137 | Exactly the expired entries are removed. |
| TxQueue.PeekKeeps | libuavcan/src/transport/uc_can_io.cpp:180-200 | Dropping expired entries from the front keeps order, quota and balance. |
| TxQueue.PeekDropsExpired | libuavcan/src/transport/uc_can_io.cpp:180-200 | Exactly the entries in front of the first one with time left are dropped and counted. |
| TxQueue.TakeKeeps | libuavcan/src/transport/uc_can_io.cpp:202-211 | Handing the first entry to the driver keeps the invariant, so frames of equal priority leave in the order they were pushed. |
| TxQueue.RunKeeps | libuavcan/src/transport/uc_can_io.cpp:108-211 | The invariant holds after any run of pushes, peeks and removals. |
| TxQueue.PushLeaksIff | libuavcan/src/uc_dynamic_memory.cpp:12-34 | A push makes the quota leak if and only if the pool refuses it, a condition on the queue, the time and the grants before the push: the first request within the quota, or, after purging, the second, or the third for a frame that takes the place of another. |
| TxQueue.ExhaustedQueueStaysEmpty | libuavcan/src/transport/uc_can_io.cpp:108-178 | A queue whose whole quota has leaked never holds a frame again, whatever happens. |
| TxQueue.RefusalsExhaustQueue | libuavcan/src/uc_dynamic_memory.cpp:12-34 | From any empty queue, as many refused pushes as the quota has left lead to that state. |
| TxQueue.FramesAreConserved | libuavcan/src/transport/uc_can_io.cpp:100-211 | If the pool grants every request within the quota, pushes = queued + sent + rejected until the counter saturates. |
| TxQueue.CanTxQueue.AllocateBlock | libuavcan/src/uc_dynamic_memory.cpp:12-23 | The quota decides first and is charged even if the pool has nothing. |
| TxQueue.CanTxQueue.PurgeExpired | libuavcan/src/transport/uc_can_io.cpp:120-137 | The loop removes and counts the expired entries. |
| TxQueue.CanTxQueue.FindLowest | libuavcan/src/transport/uc_can_io.cpp:144-159 | The loop finds the entry of lowest quality of service. |
| TxQueue.CanTxQueue.InsertBefore | libuavcan/src/transport/uc_can_io.cpp:174-177 | A new entry goes in front of the first entry of lower priority. |
| TxQueue.CanTxQueue.Push | libuavcan/src/transport/uc_can_io.cpp:108-178 | The whole push is the specified one and keeps the invariant. |
| TxQueue.CanTxQueue.Peek | libuavcan/src/transport/uc_can_io.cpp:180-200 | The first entry that has not expired, with those before it dropped and counted. |
| TxQueue.CanTxQueue.Remove | libuavcan/src/transport/uc_can_io.cpp:202-211 | The entry is unlinked and its block returned to the quota. |
| CanIo.CanIOManager.SendFromTxQueue | libuavcan/src/transport/uc_can_io.cpp:253-267 | The first entry with time left is offered to the driver once and leaves the queue exactly if the driver takes it. |
| CanIo.CanIOManager.TransmitOn | libuavcan/src/transport/uc_can_io.cpp:386-416 | On an interface that can be written, offers, result and queue are the specified ones. |
| CanIo.OffersAreByPriority | libuavcan/src/transport/uc_can_io.cpp:386-416 | A frame that wins arbitration against the queue goes first and leaves the queue as it is; otherwise the first entry with time left goes first, and the frame itself only if there is none or the driver refuses it. |
| CanIo.OvertakesIff | libuavcan/src/transport/uc_can_io.cpp:386-416 | A frame is sent ahead of a queued one of the same or a higher priority with time left if and only if the driver refuses the queue and takes the frame. |
| CanIo.LowerPriorityGoesFirstIff | libuavcan/src/transport/uc_can_io.cpp:386-416 | Although nothing of the same or a higher priority with time left is queued, a frame has to wait for a queued one if and only if an expired one of such a priority is still in front, another has time left and the driver takes it. |
| CanIo.CanIOManager.TransmitRound | libuavcan/src/transport/uc_can_io.cpp:386-416 | One pass does this on each interface that can be written to, changes no other, and counts what went out. |
| CanIo.CanIOManager.SelectAndTransmit | libuavcan/src/transport/uc_can_io.cpp:361-416 | A turn serves exactly the writable interfaces that lack the frame or have something queued. |
| CanIo.TrailKeepsPriority | libuavcan/src/transport/uc_can_io.cpp:338-438 | In every turn of a call and on every interface: who goes first, what is sent and what is left, by arbitration, deadlines and the answers of the driver. |
| CanIo.CanIOManager.PushAll | libuavcan/src/transport/uc_can_io.cpp:420-435 | The frame is pushed exactly once to the queue of each interface that is left, which then is in the state after that push, and no other queue changes. |
| CanIo.LatePushesAddNothing | libuavcan/src/transport/uc_can_io.cpp:108-117 | If the clock does not go back and the deadline has passed, no queue has an entry it did not have before the call. |
| CanIo.CanIOManager.Send | libuavcan/src/transport/uc_can_io.cpp:338-438 | For every driver, clock and pool, a call is a sequence of such turns that goes on exactly as long as an interface lacks the frame and neither an error nor the deadline for blocking has come. On success each interface of the mask got the frame exactly once, from the driver or by a push to its queue and never both, no other got it, and the result is the number of frames the driver took; the queues are in the state after these pushes. On failure nothing was pushed. With a blocking deadline not before that of the frame, no queue gets it. |
| BitArrayCopy.TransferredBit | libuavcan/src/marshal/uc_bit_array_copy.cpp:27-52 | The masked byte operation replaces exactly the copied bits, whatever the two offsets. |
| BitArrayCopy.CopyBits | libuavcan/src/marshal/uc_bit_array_copy.cpp:12-58 | Every destination bit in range is the source bit, every other destination bit is unchanged. |
| BitStreams.WriteAppends | libuavcan/src/marshal/uc_bit_stream.cpp:15-53 | Rewriting the incomplete last byte together with new bits appends them to the packed string. |
| BitStreams.BitStream.Write | libuavcan/src/marshal/uc_bit_stream.cpp:15-53 | After successful writes the buffer is all bits written, padded with zeros. After a failed write the stream still stands behind what was written if and only if the write would have left the same incomplete byte. |
| BitStreams.FailedWriteIsHarmlessIff | libuavcan/src/marshal/uc_bit_stream.cpp:15-53 | All later writes store what they would have stored without the failed one if and only if that incomplete byte is the same. |
| BitStreams.BitStream.Read | libuavcan/src/marshal/uc_bit_stream.cpp:55-77 | A read succeeds exactly if the bits are there, and returns them in cleared bytes. |
| BitStreams.WriteAll | libuavcan/src/marshal/uc_bit_stream.cpp:15-53 | Any sequence of writes leaves all their bits, padded with zeros, and with memory fails only if they do not fit. |
| BitStreams.ReadAll | libuavcan/src/marshal/uc_bit_stream.cpp:55-77 | Reading back with the same lengths returns what was written, piece by piece. |
| Bits.PackedIsUnique | libuavcan/include/uavcan/marshal/bit_stream.hpp:75-86 | A byte string with given bits and zero padding is unique. |
| Bits.BitsFromPacked | libuavcan/include/uavcan/marshal/bit_stream.hpp:75-86 | Reading bits back from a packed string returns them. |
| ScalarCodecs.ScalarBitAt | libuavcan/src/marshal/uc_scalar_codec.cpp:10-30 | Which digit of a number is sent at which position: bytes from the least significant one on, each with its most significant bit first. |
| ScalarCodecs.ScalarRoundTrip | libuavcan/src/marshal/uc_scalar_codec.cpp:21-44 | Every number that fits its bit length, 1 to 64, comes back. |
| ScalarCodecs.ValueRoundTrip | libuavcan/include/uavcan/marshal/integer_spec.hpp:78-129 | What is decoded is the closest value in range when saturating and the congruent one when truncating; a value in range is unchanged. |
| ScalarCodecs.EncodeBytes | libuavcan/src/marshal/uc_scalar_codec.cpp:21-30 | The bytes go out with the partial byte moved to its top, exactly if there is room. |
| ScalarCodecs.Encode | libuavcan/include/uavcan/marshal/scalar_codec.hpp:104-116 | The bits of the value, saturated or truncated, are appended to the stream. |
| ScalarCodecs.DecodeBytes | libuavcan/src/marshal/uc_scalar_codec.cpp:32-44 | The bytes of the next value, with the partial byte moved back. |
| ScalarCodecs.Decode | libuavcan/include/uavcan/marshal/scalar_codec.hpp:119-136 | The next value with its sign extended, exactly if the bits are there. |
| ArrayCodecs.ArrayLayout | libuavcan/include/uavcan/marshal/array.hpp:429-468 | The elements follow each other without gaps; the last field of a message with elements of a byte or more is nothing else, and any other array begins with its size in the least number of bits for the maximum size. |
| ArrayCodecs.ArrayIsAcceptedIff | libuavcan/include/uavcan/marshal/array.hpp:470-538 | Exactly which buffers are accepted, which are an error and which are too short, and how many elements come out. |
| ArrayCodecs.ArrayRoundTrip | libuavcan/include/uavcan/marshal/array.hpp:429-538 | For every element type, bit offset and list up to the maximum size, decoding what was encoded returns the list, with a size in front or, with nothing behind, without. |
| ArrayCodecs.DeliveredInRange | libuavcan/include/uavcan/marshal/integer_spec.hpp:110-129 | Values in range are not changed by encoding. |
| ArrayCodecs.TailRoundTripIff | libuavcan/include/uavcan/marshal/array.hpp:495-515 | Without a size, the elements come back exactly if the final padding is shorter than an element; for elements of a byte or more it always is. |
| ArrayCodecs.EncodeElements | libuavcan/include/uavcan/marshal/array.hpp:434-447 | All elements are appended in order; with memory it fails only for lack of room. |
| ArrayCodecs.EncodeArray | libuavcan/include/uavcan/marshal/array.hpp:449-468 | The size, unless optimised away, and the elements are appended. |
| ArrayCodecs.DecodeElements | libuavcan/include/uavcan/marshal/array.hpp:470-486 | A fixed number of elements in order, or the end of the buffer. |
| ArrayCodecs.DecodeTail | libuavcan/include/uavcan/marshal/array.hpp:495-515 | Elements up to the end of the buffer, with an error beyond the maximum size. |
| ArrayCodecs.DecodeArray | libuavcan/include/uavcan/marshal/array.hpp:491-538 | The size is checked against the maximum before the elements are decoded. |
| SquareMatrix.PackingIsLosslessIff | libuavcan/include/uavcan/marshal/array.hpp:543-659 | Unpacking a packed matrix returns it if and only if some element is a number. |
| SquareMatrix.SizesTellModesApart | libuavcan/include/uavcan/marshal/array.hpp:602-658 | For two rows or more, the sizes of all packing modes differ. |
| SquareMatrix.TriangleIsFull | libuavcan/include/uavcan/marshal/array.hpp:41-52 | The rows of the upper-right triangle fill n(n + 1) / 2 positions exactly. |
| SquareMatrix.TriangleComesBack | libuavcan/include/uavcan/marshal/array.hpp:623-645 | Every element of a symmetric matrix is found in the packed triangle. |
| SquareMatrix.DetectOptimalMode | libuavcan/include/uavcan/marshal/array.hpp:86-167 | The scans decide exactly between empty, scalar, diagonal, symmetric and full. |
| SquareMatrix.PackSquareMatrix | libuavcan/include/uavcan/marshal/array.hpp:543-601 | The loops produce the packed form of the detected mode. |
| SquareMatrix.UnpackTriangle | libuavcan/include/uavcan/marshal/array.hpp:623-645 | In place, the lower-left triangle is filled from what was unpacked above it. |
| SquareMatrix.UnpackSquareMatrix | libuavcan/include/uavcan/marshal/array.hpp:602-659 | The loops fill the whole matrix as the size of the packed array says. |
| TimeSyncSlave.AdjustmentsArePaired | libuavcan/include/uavcan/protocol/global_time_sync_slave.hpp:47-122 | Over every run, an adjustment pairs its message with the last update: same master and interface, next transfer identifier, within the maximum period, nothing in between, amount as defined. |
| TimeSyncSlave.PairsAreAdjusted | libuavcan/include/uavcan/protocol/global_time_sync_slave.hpp:47-122 | Conversely, every such pair leads to an adjustment by that amount. |
| TimeSyncSlave.OtherwiseUpdated | libuavcan/include/uavcan/protocol/global_time_sync_slave.hpp:93-115 | A message of the followed master is an adjustment under exactly these conditions, and an update otherwise. |
| TimeSyncSlave.UpdatesAreUsedOnce | libuavcan/include/uavcan/protocol/global_time_sync_slave.hpp:47-122 | No update serves two adjustments: between any two there is a new update, with which the second is paired. |
| TimeSyncSlave.MasterRisesIff | libuavcan/include/uavcan/protocol/global_time_sync_slave.hpp:77-122 | A message makes the slave follow a master with a higher node identifier if and only if it comes from there and the last update is older than the publisher timeout. |
| TimeSyncSlave.MasterFallsIff | libuavcan/include/uavcan/protocol/global_time_sync_slave.hpp:77-92 | A message makes the slave follow a master with a lower node identifier if and only if it comes from there. |
| TimeSyncSlave.LowestNodeIsFollowed | libuavcan/include/uavcan/protocol/global_time_sync_slave.hpp:77-122 | Over every run, the master that is followed is not above any node heard since the slave last started over. |
| TimeSyncSlave.MasterRisesOnlyAfterTimeout | libuavcan/include/uavcan/protocol/global_time_sync_slave.hpp:47-122 | Over every run: since that update the slave has heard the old master at most once over the interface it follows, for an adjustment within the maximum period, so that the master has been silent there for more than the timeout less that period. |
| TimeSyncSlave.HeardMasterCanBeLeft | libuavcan/include/uavcan/protocol/global_time_sync_slave.hpp:47-122 | A run in which the master is left half a timeout after it was heard. |
| TimeSyncSlave.LastUpdateIsRemembered | libuavcan/include/uavcan/protocol/global_time_sync_slave.hpp:64-75 | What the slave knows at any time comes from the last update. |
| TimeSyncSlave.GlobalTimeSyncSlave.AdjustFromMsg | libuavcan/include/uavcan/protocol/global_time_sync_slave.hpp:47-62 | The clock is told the amount unless the slave is suppressed. |
| TimeSyncSlave.GlobalTimeSyncSlave.ProcessMsg | libuavcan/include/uavcan/protocol/global_time_sync_slave.hpp:77-122 | The whole reaction to a message is the specified one. |
| Deadlines.PollServesAll | libuavcan/src/node/uc_scheduler.cpp:87-114 | Whatever the handlers do, polling keeps order and history and returns only when every deadline is later than the time returned. |
| Deadlines.RunKeeps | libuavcan/src/node/uc_scheduler.cpp:14-114 | After any run the list is sorted and stable with each handler at most once, no handler was called early and no registration was served twice. |
| Deadlines.StartedIsCalled | libuavcan/src/node/uc_scheduler.cpp:14-114 | A handler that is started and left alone has been called when a poll ends after its deadline, whatever others do. |
| Deadlines.StoppedIsNotCalled | libuavcan/src/node/uc_scheduler.cpp:22-30 | A handler that was stopped, periodic or not, is not called until it is started again. |
| Deadlines.PeriodicTimerKeepsTime | libuavcan/src/node/uc_timer.cpp:13-48 | The k-th scheduled time of an undisturbed periodic timer is start + k * period, however late the polls are. |
| Deadlines.InsertedKeeps | libuavcan/src/node/uc_scheduler.cpp:40-54 | Insertion keeps the list sorted, first come first served among equal deadlines. |
| Deadlines.DeadlineScheduler.Add | libuavcan/src/node/uc_scheduler.cpp:50-54 | A registration goes in front of the first later deadline. |
| Deadlines.DeadlineScheduler.Remove | libuavcan/src/node/uc_scheduler.cpp:56-60 | The handler is taken off the list, if it is on it. |
| Deadlines.DeadlineScheduler.StartWithDeadline | libuavcan/src/node/uc_scheduler.cpp:14-20 | A new registration replaces the old one. |
| Deadlines.DeadlineScheduler.HandleDeadline | libuavcan/src/node/uc_timer.cpp:13-26 | A periodic timer is registered again for its scheduled time plus the period before the application acts. |
| Deadlines.DeadlineScheduler.PollAndGetMonotonicTime | libuavcan/src/node/uc_scheduler.cpp:87-114 | The loop is the specified poll. |
| LinkedLists.LinkedListRoot.GetLength | libuavcan/include/uavcan/util/linked_list.hpp:86-97 | Following the links counts the nodes. |
| LinkedLists.LinkedListRoot.Remove | libuavcan/include/uavcan/util/linked_list.hpp:146-171 | Relinking takes exactly the given node out, if it is on the list; the links still lead through the others in order, each once. |
| LinkedLists.LinkedListRoot.Insert | libuavcan/include/uavcan/util/linked_list.hpp:99-110 | The node is moved to the front, with no loop. |
| LinkedLists.LinkedListRoot.InsertBefore | libuavcan/include/uavcan/util/linked_list.hpp:112-144 | The node is moved in front of the first other one that satisfies the predicate, or to the end, with no loop; the list of values changes as the queues and schedulers built on it specify. |
| LinkedLists.ValuesOfInserted | libuavcan/include/uavcan/util/linked_list.hpp:112-144 | Inserting a node is inserting its value into the sequence of values. |
| LinkedLists.ValuesOfRemoved | libuavcan/include/uavcan/util/linked_list.hpp:146-171 | Removing a node is removing its value from the sequence of values. |
| Pool.PoolAllocator.constructor | libuavcan/include/uavcan/dynamic_memory.hpp:142-157 | The loop links all blocks into the free list. |
| Pool.PoolAllocator.Allocate | libuavcan/include/uavcan/dynamic_memory.hpp:160-182 | A block nobody else has, failing exactly if none is left or the request is too large; free and handed-out blocks keep partitioning the pool. |
| Pool.PoolAllocator.Deallocate | libuavcan/include/uavcan/dynamic_memory.hpp:185-202 | The block goes back to the front of the free list. |
| PoolMaps.ClearedSlotRemoves | libuavcan/include/uavcan/util/map.hpp:256-265 | Clearing a slot removes exactly its key from the map. |
| PoolMaps.FilledSlotAdds | libuavcan/include/uavcan/util/map.hpp:238-243 | Filling a free slot adds exactly its entry. |
| PoolMaps.UnusedGroupCanGo | libuavcan/include/uavcan/util/map.hpp:200-222 | A group without pairs can be dropped without changing the map. |
| PoolMaps.Map.FindKey | libuavcan/include/uavcan/util/map.hpp:184-197 | A key is found exactly if it is in the map. |
| PoolMaps.Map.Compact | libuavcan/include/uavcan/util/map.hpp:200-222 | No group without pairs survives, and its block is back in the pool. |
| PoolMaps.Map.Access | libuavcan/include/uavcan/util/map.hpp:225-230 | The value of a key, if it is in the map. |
| PoolMaps.Map.Insert | libuavcan/include/uavcan/util/map.hpp:233-253 | The map gets the entry; if that fails, every slot is taken and the pool has no block or none that is large enough, and the map is the old one without the key. Blocks of other users are untouched. |
| PoolMaps.Map.Remove | libuavcan/include/uavcan/util/map.hpp:256-265 | The map loses exactly the key. |
| PoolMaps.Map.RemoveAllWhere | libuavcan/include/uavcan/util/map.hpp:269-298 | Exactly the entries that satisfy the predicate go, and the predicate holds for each of them exactly once, so that what a predicate does besides is done once for each entry that goes. |
| PoolMaps.Map.Clear | libuavcan/include/uavcan/util/map.hpp:327-330 | Nothing is left, and all blocks are back in the pool. |

## Left out

- Drivers, the DSDL compiler, the Raft-based node identifier server, service clients and the other application-level helpers are not part of this model.
- Reception in `CanIOManager`, perf counters, string output and the dispatcher's tables add only easy members.
- The listener keeps receivers and buffers as values by key; that the block chain behaves like such a value is proved separately, and the list of buffers in `TransferBufferManager` is a map by key.
- The map's values are not updated through the pointers it returns. What a predicate given to it does besides is not part of the map; the entries it does it for are returned.
- The multiset behind the acceptance filters is an indexed sequence with removal of the first equal element; filters added by hand are not covered, and its size is assumed to fit sixteen bits.
- The list of pending frames that `CanIOManager::send` shows to the driver is left out, since the driver may answer anything.
- The queue and the scheduler hold their list as a sequence and use the two sequence operations that the linked list, modelled link by link, is proved to perform; sharing of nodes between lists is not modelled.
- Locking is left out: all objects are used sequentially.
- Times are unbounded natural numbers, and the limits of the time synchronisation protocol are parameters.
- Matrix elements are exact real numbers or NaN, compared exactly instead of with tolerances; floating-point encoding is left out.
- The machine is little-endian, so the byte order conversion of the scalar codec does nothing.
- AcceptanceFilter.ManyFiltersKeepSome: says what is kept with fewer than 256 hardware filters, not what is lost, because a filter that is widened later may happen to pass a dropped type again.
