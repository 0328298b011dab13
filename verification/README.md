# otlp-c, verified

A Dafny model of otlp-c, a C client that batches OpenTelemetry spans, metrics and log records and
posts them over HTTP. The project models the parts of the client that decide something and proves
what they are for. `dafny verify dfyconfig.toml` checks it.

- `MpscRing.dfy` is the lock-free queue of `src/mpsc_queue.c` as a state machine: one step for each
  atomic load, CAS and store, a program counter for each producer and for the consumer, sequential
  consistency. `MpscQueue.dfy` is the same queue as a class, a bounded FIFO.
- `ExporterMachine.dfy` is the pipeline of `src/exporter.c` as a state machine: producers that emit
  at any time, a ticking thread that drains, batches, posts, records outcomes, retries or drops, for
  three signals that share one request and one backoff. Clock, request builder, server and null
  transport are inputs. `ExporterRuns.dfy` holds the theorems about its runs, `ExporterStuck.dfy`
  those about batches without a timer and retries without an end. Theorems about all runs leave
  clock and server free; runs that show that something happens keep to the pace of the code, as
  `ExporterTimed.dfy` defines it: the clock does not go back, and a request has no status before its
  third step. `ExporterPolicy.dfy` says in literal statuses and fields which counter an outcome
  moves, which batch is posted and when. `ExporterClass.dfy` is the struct with its functions, each
  proved to be a run of the machine, so that what holds on every run holds for them.
- `PbWire.dfy`, `PbEncode.dfy`, `PbDecode.dfy` and `PbTree.dfy` are the protobuf wire format, the
  growing buffer, the bounds-checked reader and trees of nested messages. On them stand
  `AnyValue.dfy`, `OtlpMessages.dfy`, `SpanDecode.dfy` and `TraceEncode.dfy` for spans and trace
  requests, `OtlpMetrics.dfy` and `MetricsEncode.dfy` for metrics, `RequestReadBack.dfy` for what a
  receiver finds in either request, and `PartialSuccess.dfy` for responses. Doubles are 64-bit
  patterns.
- `HttpChunked.dfy` and `HttpResponse.dfy` are the HTTP/1.1 response parser with its in-place
  chunked decoder; `HttpHeaders.dfy` says what header lines mean in letters and digits;
  `HttpStream.dfy` is the decoder one byte at a time.
- `AttrCopy.dfy` and `AttrVec.dfy` are attribute trees on a heap whose allocations may fail at any
  point, their deep copy, and the attribute vector; `AttrEncode.dfy` relates copies to the encoder.
  `Utf8.dfy` is the UTF-8 check.
- `Slab.dfy`, `Prng.dfy`, `Retry.dfy` and `Traceparent.dfy` are the slab allocator, the id
  generator, the retry timing and the traceparent header.

Some promises do not hold of the code. For each a lemma gives an input that shows it, and others
say when the promise is kept:

- A ring with one slot, which init and the exporter's options accept, loses items
  (`MpscRing.CapacityOneOverwrites`, `DeliversIffCapacityAtLeastTwo`, `ExporterModel.CapacityOneIff`,
  `QueueDeliversIff`). The theorems about the exporter are about configurations with at least two.
- Over HTTP, items drained into a batch while its request is in flight are freed with the batch but
  not counted, so a flush can succeed without emitted = sent + dropped_err
  (`ExporterTimed.FlushMayLose`, `ExporterRuns.LostIff`, `FlushAccountsIff`).
- With max_retries = 2^32-1 the attempt counter wraps and a batch need never be given up
  (`ExporterStuck.RetriesForever`, `RetriesEndIff`).
- A retry whose request cannot be built can leave its batch without a timer; then only another item,
  or the shutdown, gets it posted (`ExporterStuck.RetryMayStrand`, `FailedRebuildLeavesNoTimerIff`,
  `NoTimerNoPost`).
- The chunked decoder asks for more bytes in two cases in which none can complete the body
  (`HttpChunked.StuckOccurs`, `NeedMoreIff`).
- Parsing a buffer again after an incomplete chunked response differs from parsing all its original
  bytes, because whole chunks are already compacted (`HttpChunked.ReparseDiffers`,
  `ReparseNeverCompletesIff`); `HttpStream.ReparseAgreesIff` says when it does not. The header file
  calls the parser a pure function of its arguments; it is one per call on a fresh buffer.
- With an initial delay of zero Retry-After is ignored, though the comment in the source expects a
  base of zero only from a cap of zero (`Retry.ZeroInitialIgnoresFloor`, `DelayRespectsFloorIff`,
  `BaseZeroIff`). The exporter's own defaults never configure either.
- A truncated or zero key at the end of a PartialSuccess, or of the response around it, counts as a
  clean end (`PartialSuccess.BrokenEndsAccepted`, `LenientIff`, `BrokenResponseAccepted`,
  `ResponseLenientIff`).
- The traceparent parser is to stay inside the string, but for some headers that end early it reads
  one byte behind the terminator, though what it answers does not depend on it
  (`Traceparent.ReadsBehindShort`, `ReadsBehindIff`).

## Model

| member | source | states |
|---|---|---|
| MpscRing.NextInv | src/mpsc_queue.c:83-138 | Every atomic load, CAS and store of push and pop, by any of the producers or the consumer, keeps the slot invariant: the sequence number of a slot says free, claimed or published for the one ticket it serves, and at most `capacity` tickets are outstanding |
| MpscRing.FifoPerProducer | src/mpsc_queue.c:83-138 | In every interleaving with capacity at least 2 the popped sequence is the ticket order cut off, every accepted push has exactly one ticket, and the items of one producer come out in the order it pushed them |
| MpscRing.StepRefinesBoundedFifo | src/mpsc_queue.c:83-138 | Each atomic step is, on the tickets taken and not released, nothing, an enqueue into a queue with room, or a dequeue of the oldest item |
| MpscRing.FullIffAllOutstanding | src/mpsc_queue.c:90-107 | Push answers BUFFER_FULL exactly at a load of `seq` during which every slot is outstanding and its ticket is the head |
| MpscRing.CasFailureMeansProgress | src/mpsc_queue.c:95-101 | A CAS that fails without a spurious failure lost to another producer: head has moved on |
| MpscRing.NullIffTailUnpublished | src/mpsc_queue.c:122-131 | Pop answers NULL exactly when the oldest unreleased ticket is not published at its load |
| MpscRing.QuietRingIsPublished | src/mpsc_queue.c:109-138 | With no push in progress every ticket in the ring is published, so NULL means empty |
| MpscRing.PopReturnsTicketItem | src/mpsc_queue.c:130-138 | What pop returns is the item of the ticket it took, and afterwards the stored tail counts the pops |
| MpscRing.SignedDiffIsExact | src/mpsc_queue.c:94-128 | The signed 64-bit difference of sequence number and ticket is the true difference while the counters stay below 2^63, for the head of push and for the t + 1 of pop |
| MpscRing.DeliversIffCapacityAtLeastTwo | src/mpsc_queue.c:49-71 | The ring delivers on every run exactly when it has at least two slots; init accepts one |
| MpscRing.CapacityOneOverwrites | src/mpsc_queue.c:109-138 | With one slot a second push succeeds over an item that was never popped |
| MpscRing.CapacityOneNeverPopsAgain | src/mpsc_queue.c:122-138 | After that no continuation of any length pops anything |
| MpscRing.CapacityOneStarves | src/mpsc_queue.c:122-138 | Two pushes into one slot lead there |
| MpscQueueModel.MpscQueue.Init | src/mpsc_queue.c:49-71 | Which capacities init accepts and what it answers otherwise; from two slots on the queue is empty and valid |
| MpscQueueModel.MpscQueue.TakeTicket | src/mpsc_queue.c:83-107 | The CAS loop takes the ticket at head, or reports a full ring, whatever CAS attempts fail spuriously |
| MpscQueueModel.MpscQueue.Push | src/mpsc_queue.c:83-120 | Push appends to the queue if there is room and changes nothing otherwise |
| MpscQueueModel.MpscQueue.Pop | src/mpsc_queue.c:122-138 | Pop removes and returns the oldest item, or NULL from an empty queue |
| MpscQueueModel.MpscQueue.Size | src/mpsc_queue.c:140-151 | The size is the number of items |
| ExporterMachine.NextInv | src/exporter.c:758-1308 | Every step of every producer and of the ticking thread keeps the ledgers, the lag of the producers' counters, the in-flight request and the retry budget |
| ExporterRuns.EveryItemOnce | src/exporter.c:758-1308 | With a queue of at least two slots, in every interleaving the accepted items of a signal are, in order, the freed, the pending and the queued ones; once the exporter is freed each was freed exactly once |
| ExporterRuns.CounterLedger | src/exporter.c:758-870 | With a queue of at least two slots: accepted items = sent + dropped_err + pending + queued + lost, lost is never negative and zero under the null transport, `emitted` and `dropped_full` lag by exactly the producers before them, and a pending batch has at most twice the batch size |
| ExporterRuns.LostGrows | src/exporter.c:856-870 | The items freed without being counted grow only when an outcome disposes of a batch, by what was drained into it while its request was in flight |
| ExporterRuns.LostIff | src/exporter.c:856-870 | A run leaves the loss as it was exactly when none of its outcomes disposes of a batch that holds more than its request carried; otherwise the loss grows |
| ExporterRuns.DrainedInFlight | src/exporter.c:1162-1181 | While a request stays in flight its batch grows by exactly what is drained into it, so that the excess over in_flight_count is what was drained since the start |
| ExporterStuck.ExcessIffTimer | src/exporter.c:1162-1181 | In every reachable state with a request in flight its batch holds more than the request carried exactly when first_set is true, so that the loss can be told before the outcome |
| ExporterTimed.FlushMayLose | src/exporter.c:1310-1347 | A run over HTTP, at the pace of the code, after which flush finds nothing left though one of two emitted items is neither sent nor dropped |
| ExporterRuns.FlushAccountsIff | src/exporter.c:1310-1347 | When a run ends flushed with producers quiet, emitted = sent + dropped_err exactly when no outcome in the run disposed of a batch into which something had been drained since its request was started |
| ExporterRuns.FlushAccounts | src/exporter.c:1310-1347 | Under the null transport a successful flush with producers quiet has emitted = sent + dropped_err |
| ExporterRuns.OneRequest | src/exporter.c:877-918 | A request in flight carries the first in_flight_count pending items of its signal, between 1 and twice the batch size, never together with an armed backoff and never under the null transport |
| ExporterRuns.BatchStays | src/exporter.c:906-918 | Until its outcome no step frees or moves an item of the request in flight |
| ExporterRuns.OutcomeEffect | src/exporter.c:977-1147 | An outcome either disposes of the batch, which empties it and resets the attempts, or leaves every signal as it is and arms the backoff |
| ExporterRuns.DisposesIff | src/exporter.c:983-1147 | It disposes exactly for a status that is not retried or when the attempts exceed max_retries |
| ExporterRuns.RetriesEnd | src/exporter.c:985-1127 | With max_retries below 2^32-1, among any max_retries+1 consecutive outcomes of any run one disposes of a batch |
| ExporterStuck.RetriesEndIff | src/exporter.c:985-1127 | Any max_retries+1 consecutive outcomes contain one that disposes of a batch, on all runs and on all runs in which the 64-bit clock does not go back and no request is answered before it was sent, exactly when max_retries is below 2^32-1 |
| ExporterStuck.NeverGivesUp | src/exporter.c:985-1127 | With max_retries = 2^32-1 no outcome with a retryable status disposes of a batch, in any state |
| ExporterStuck.RetriesForever | src/exporter.c:985-1127 | With it, for every n, every transport and every batch and queue size from one and two on, such a run ends in n outcomes that all failed and disposed of nothing; its clock shows one batch interval and n times max_ms |
| ExporterRuns.BackoffHolds | src/exporter.c:1183-1291 | Before the deadline of an armed backoff a tick changes nothing but what the drain does |
| ExporterRuns.BackoffDelay | src/exporter.c:1011-1124 | The deadline lies at most max_ms after the outcome, and for an HTTP status at least min(Retry-After, max_ms) after it |
| ExporterStuck.NoTimerNoPost | src/exporter.c:1207-1230 | A batch below the batch size that has no timer, request or backoff is neither posted nor freed in any run without a push of its signal, the shutdown or the end, whatever clock, server and other signals do |
| ExporterStuck.FailedRebuildLeavesNoTimerIff | src/exporter.c:1276-1291 | In every reachable state a retry that is due when the acting step comes to the backoff, also one that this step has armed, and whose request cannot be built, clears the backoff and changes nothing else; the batch is left without a timer exactly when it is not full and holds only what its request carried |
| ExporterStuck.DrainedSince | src/exporter.c:1149-1291 | As long as no request is started or given up, what a batch holds beyond what its request carried is exactly what was drained since, through failures and backoffs |
| ExporterStuck.RetryMayStrand | src/exporter.c:1276-1291 | A run, at the pace of the code, of one item and one failing request to a reachable state whose batch no continuation without a push or the shutdown ever posts |
| ExporterStuck.ActStartsIff | src/exporter.c:1183-1291 | Over HTTP an acting step starts a request exactly when a signal is due and can be built while nothing is in flight and no backoff holds it, or when an overdue retry can be built |
| ExporterRuns.ActsAfterDrains | src/exporter.c:1149-1308 | Before the first acting step of a run the tick was begun once and all three queues were drained to their end |
| ExporterRuns.EveryOutcomeCounted | src/exporter.c:983-1133 | In every run each outcome was counted once, as 2xx, 4xx, 5xx or network error |
| ExporterPolicy.SuccessCounts | src/exporter.c:1034-1063 | A status of 200 to 299 adds the items in flight to sent and a positive number of rejected items to rejected, clears batch and attempts, counts one 2xx and touches nothing else |
| ExporterPolicy.RetryableCounts | src/exporter.c:985-1127 | No response, 429 and 500 to 599 count one network error, 4xx or 5xx; the batch stays and the deadline is the delay of the policy after the clock, unless the attempts then exceed max_retries and its items are added to dropped_err |
| ExporterPolicy.RefusedCounts | src/exporter.c:1129-1147 | Any other status adds the items in flight to dropped_err at once and counts one 4xx |
| ExporterPolicy.SentIsTotal | src/exporter.c:977-1147 | On every run sent, rejected and dropped_err of a signal are the sums over its outcomes: of the items of those with 2xx, of what these rejected, of the items of those given up |
| ExporterPolicy.FirstReadyIsPosted | src/exporter.c:1207-1274 | Over HTTP with nothing in flight and no backoff an acting step starts the first signal whose batch is full, has waited the batch interval or is to be shut down, with all that is pending; with no such signal it changes nothing |
| ExporterPolicy.ShortBatchWaits | src/exporter.c:1212-1224 | A batch that is short, has waited less than the interval and is not to be shut down is left alone |
| ExporterPolicy.RetryPosts | src/exporter.c:1276-1291 | A retry that is due posts the same signal again, with what was drained since |
| ExporterPolicy.NullActs | src/exporter.c:1183-1205 | Under the null transport the first signal with a batch has its outcome recorded, for the whole batch |
| ExporterPolicy.TimerMoves | src/exporter.c:1162-1181 | Only an acting step stops the timer of a signal, and only a drained item starts it, at the clock of its drain |
| ExporterPolicy.TimerOfRun | src/exporter.c:1162-1181 | On every run the timer of a signal holds the clock of the first item drained since it was last cleared |
| ExporterPolicy.DrainEndsIff | src/exporter.c:1162-1181 | The drain of a signal goes on until twice the batch size is pending, the queue is empty, or its oldest item may still be on its way |
| ExporterPolicy.PushRefusedIff | src/exporter.c:776-796 | An item is refused and counted exactly when the queue holds as many items as it has slots, and is appended otherwise |
| ExporterPolicy.CheckRefusedIff | src/exporter.c:767-774 | An item is refused for the shutdown exactly when that was asked for at the check |
| ExporterModel.OtlpExporter.CheckShutdown | src/exporter.c:767-774 | The load of the shutdown flag; a refused item is freed at once |
| ExporterModel.OtlpExporter.PushItem | src/exporter.c:776-793 | The push is accepted or refused as the step of the machine says |
| ExporterModel.OtlpExporter.CountItem | src/exporter.c:788-793 | The counter that follows the push |
| ExporterModel.OtlpExporter.EmitMove | src/exporter.c:758-795 | With any steps of other threads in between the call is a run of the machine; it answers OK only if it pushed and the accepted items grew by this item, and otherwise has freed it |
| ExporterModel.OtlpExporter.ClearInFlightBatch | src/exporter.c:856-870 | The loop frees every pending item in order and resets batch, timer, attempts and backoff |
| ExporterModel.OtlpExporter.TryStartPost | src/exporter.c:877-918 | A request is started with the whole pending batch, or nothing changes |
| ExporterModel.OtlpExporter.RecordTheOutcome | src/exporter.c:977-1147 | The outcome of a request changes the exporter as the outcome step of the machine |
| ExporterModel.OtlpExporter.AnswerNull | src/exporter.c:1183-1205 | Under the null transport the first signal with a pending batch is answered |
| ExporterModel.OtlpExporter.StartDuePosts | src/exporter.c:1207-1230 | The loop over the signals starts the request of the first one that is due and can be built |
| ExporterModel.OtlpExporter.StepRequest | src/exporter.c:1232-1274 | The request in flight is stepped, its outcome recorded, the request dropped |
| ExporterModel.OtlpExporter.RetryAfterBackoff | src/exporter.c:1276-1291 | After the deadline the backoff is cleared and, over HTTP, the batch posted again |
| ExporterModel.OtlpExporter.ActOnce | src/exporter.c:1183-1291 | Steps 2 to 5 of a tick are the acting step of the machine |
| ExporterModel.OtlpExporter.DrainSignal | src/exporter.c:1162-1181 | The drain of one signal, with emits in between, is a run of the machine |
| ExporterModel.OtlpExporter.TickUntil | src/exporter.c:1149-1308 | A tick, with emits in between, is a run of the machine that holds at least one whole round of drains and an acting step, and ends idle |
| ExporterModel.OtlpExporter.Flush | src/exporter.c:1310-1347 | Flush is a run of the machine with at least one whole tick; it answers OK exactly when nothing is left, as long as no producer interferes with its last reads |
| ExporterModel.OtlpExporter.FreeSignalItems | src/exporter.c:266-276 | The queue is popped and freed, then the pending batch |
| ExporterModel.OtlpExporter.FreeExporter | src/exporter.c:722-752 | Afterwards the freed items of every signal are the accepted ones, each once |
| ExporterModel.Normalize | src/exporter.c:447-477 | Every field of the configuration: its default, or what was asked for, clamped; it is usable, with at least two queue slots unless one was asked for |
| ExporterModel.RoundUpPow2 | src/exporter.c:433-445 | The loop computes the rounding, without overflow |
| ExporterModel.RoundUpIsLeast | src/exporter.c:433-445 | The rounding is the least power of two that is large enough, or 2^63 |
| ExporterModel.CapacityOneIff | src/exporter.c:474-476 | The ring gets the one slot it does not work with exactly when one is asked for |
| ExporterModel.QueueDeliversIff | src/exporter.c:474-476 | A ring of the size that the options give delivers on every run exactly when they did not ask for one slot |
| PbWire.VarintRoundTrip | src/protobuf_encode.c:145-160 | Reading an encoded varint gives every 64-bit value back and leaves the rest |
| PbWire.ReadVarintIs64Bit | src/protobuf_decode.c:43-64 | Whatever the bytes, a varint that is read fits 64 bits |
| PbWire.KeyRoundTrip | src/protobuf_encode.c:205-222 | Reading an encoded key gives field number and wire type back, for every nonzero 32-bit number |
| PbWire.ValueRoundTrip | src/protobuf_decode.c:82-135 | Reading or skipping a value by its wire type consumes exactly what was written |
| PbWire.FieldRoundTrip | src/protobuf_decode.c:16-115 | So does reading a key and its value |
| PbWire.WalkRoundTrip | src/protobuf_decode.c:16-115 | A key and skip walk over encoded fields yields exactly them |
| PbEncode.GrowthOverflow | src/protobuf_encode.c:41-51 | The growth loop gives up only when no power of two fits |
| PbEncode.PbBuf.Init | src/protobuf_encode.c:90-115 | The buffer starts empty, inline or on the heap; it fails only where the allocator refuses |
| PbEncode.PbBuf.Reserve | src/protobuf_encode.c:26-68 | Room for the bytes asked for, or an unchanged buffer; contents are kept and the capacity never shrinks; it fails only where the allocator refuses or more than 2^63 bytes would be needed |
| PbEncode.PbBuf.Append | src/protobuf_encode.c:71-86 | The bytes are appended, or nothing is; with memory and room they are appended |
| PbEncode.PbBuf.Varint | src/protobuf_encode.c:145-160 | The loop into the scratch array appends the varint encoding, or nothing |
| PbEncode.PbBuf.Fixed64 | src/protobuf_encode.c:162-171 | Eight bytes, the lowest first, or nothing |
| PbEncode.PbBuf.Fixed32 | src/protobuf_encode.c:173-181 | Four bytes, the lowest first, or nothing |
| PbEncode.PbBuf.LenBytes | src/protobuf_encode.c:183-203 | Length and bytes; a failure leaves a prefix of them and needs a refusal or an overflow |
| PbEncode.PbBuf.Tag | src/protobuf_encode.c:205-222 | The key is appended, or nothing is; which arguments are invalid |
| PbEncode.PbBuf.FieldVarint | src/protobuf_encode.c:236-249 | Zero is left out; a failure leaves a prefix of the field, the tag at most |
| PbEncode.PbBuf.FieldFixed64 | src/protobuf_encode.c:251-264 | Zero is left out; a failure leaves a prefix of the field |
| PbEncode.PbBuf.FieldLen | src/protobuf_encode.c:281-335 | Empty contents are left out; a failure leaves a prefix of the field |
| PbDecode.Reader.ReadVarint | src/protobuf_decode.c:43-64 | The loop with shifts computes the varint at the position and moves behind it |
| PbDecode.Reader.ReadKey | src/protobuf_decode.c:16-41 | Field number and wire type; field number 0 is refused |
| PbDecode.Reader.ReadLen | src/protobuf_decode.c:66-80 | A slice inside the buffer, or failure |
| PbDecode.Reader.Skip | src/protobuf_decode.c:82-115 | Moves past exactly the value the matching read would return |
| PbDecode.Reader.ReadFixed | src/protobuf_decode.c:117-135 | The fixed readers, bounds checked |
| PbTree.ParseRoundTrip | src/protobuf_decode.c:16-115 | Parsing an encoded tree of messages of any depth and width gives the tree back: every message ends where its length says |
| PbTree.EncodingIsInjective | src/protobuf_decode.c:16-115 | Two trees with the same bytes are equal |
| PbTree.SelectFlat | src/protobuf_decode.c:16-115 | Selecting by field number gives the fields of that number, wherever they stand |
| AnyValueModel.AnyValueRoundTrip | src/otlp_messages.c:118-226 | Decoding with the repository's readers recovers any AnyValue tree, NULLs read as empty, from exactly the emitted bytes |
| AnyValueModel.KeyValueRoundTrip | src/otlp_messages.c:230-262 | The same for a KeyValue |
| AnyValueModel.EncodeAnyValue | src/otlp_messages.c:212-226 | The encoder appends the encoding of the tree; a failure leaves a prefix of it, and with memory and room for all of it there is none |
| AnyValueModel.EncodeArray | src/otlp_messages.c:118-157 | Through temporary buffers, the items of an array, with the same promise on failure |
| AnyValueModel.EncodeKvList | src/otlp_messages.c:159-197 | Through temporary buffers, the entries of a list, with the same promise on failure |
| AnyValueModel.EncodeKeyValue | src/otlp_messages.c:230-262 | Key and value of an attribute, with the same promise on failure |
| OtlpMessages.SpanConforms | src/otlp_messages.c:311-525 | The fields of every span conform to the schema at each level |
| OtlpMessages.TraceRequestRoundTrip | src/otlp_messages.c:759-788 | Every trace request parses back into its tree, exactly, at every level |
| SpanDecode.SpanRoundTrip | src/otlp_messages.c:311-525 | From its bytes every span is read back by field number, without the events that have no content |
| SpanDecode.EventsReadBack | src/otlp_messages.c:435-464 | Events are read back; the ones without name, time and attributes are never emitted |
| RequestReadBack.KeyedAttrsAre | src/otlp_messages.c:569-587 | The resource keeps exactly the attributes with a nonempty key, in order |
| RequestReadBack.EnvelopeReadBack | src/otlp_messages.c:529-757 | Resource attributes, scope name, scope version, items and schema URL are each found under their own numbers; what is empty is absent |
| RequestReadBack.TraceRequestReadBack | src/otlp_messages.c:662-788 | From the bytes of a trace request: service.name first, then the keyed attributes in order; the scope; as many spans as were given, the i-th with every field of the i-th; the schema URL. A request without span, service and attribute has no bytes |
| TraceEncode.EmitAttributes | src/otlp_messages.c:633-660 | The attribute loop appends the attributes in order; a failure leaves a prefix, and with memory and room there is none |
| TraceEncode.EmitEvents | src/otlp_messages.c:435-464 | The loop over events; a failure leaves a prefix, and with memory and room there is none |
| TraceEncode.EmitLinks | src/otlp_messages.c:473-499 | The loop over links; a failure leaves a prefix, and with memory and room there is none |
| TraceEncode.EmitStatus | src/otlp_messages.c:266-307 | The status, or nothing for an unset one without message; a failure leaves a prefix, and with memory and room there is none |
| TraceEncode.EncodeSpanBody | src/otlp_messages.c:311-525 | A span is written as its fields in order; a failure leaves a prefix, and with memory and room there is none |
| TraceEncode.EmitResource | src/otlp_messages.c:529-593 | service.name, then the attributes with a nonempty key; a failure leaves a prefix, and with memory and room there is none |
| TraceEncode.EmitScope | src/otlp_messages.c:595-629 | The scope, or nothing; a failure leaves a prefix, and with memory and room there is none |
| TraceEncode.EmitScopeSpans | src/otlp_messages.c:662-705 | Scope and spans as a field of the resource; a failure leaves a prefix, and with memory and room there is none |
| TraceEncode.EncodeTraceRequest | src/otlp_messages.c:759-788 | The request is written as its tree; a failure leaves a prefix, and with memory and room there is none |
| TraceEncode.EncodedRequestParses | src/otlp_messages.c:759-788 | From what the encoder writes into an empty buffer a reader gets back resource, scope, every span in order and schema URL; it is written whenever the allocator refuses nothing and the request has at most 2^63 bytes |
| OtlpMetrics.ZigzagBijective | src/otlp_metrics_encoder.c:83-87 | zigzag32 is a bijection between the signed and the unsigned 32-bit numbers |
| OtlpMetrics.ZigzagSmall | src/otlp_metrics_encoder.c:83-87 | Its closed form: 2v, or -2v-1 for negative v |
| OtlpMetrics.VarintsRoundTrip | src/otlp_metrics_encoder.c:395-414 | Packed varint bucket counts decode to the original sequence |
| OtlpMetrics.Fixed64sRoundTrip | src/otlp_metrics_encoder.c:289-341 | Packed 64-bit counts and bounds decode to the original sequence |
| OtlpMetrics.BucketsReadBack | src/otlp_metrics_encoder.c:372-421 | Offset and counts of exponential buckets are read back |
| OtlpMetrics.ExemplarReadBack | src/otlp_metrics_encoder.c:103-159 | An exemplar is read back field by field |
| OtlpMetrics.PointReadBack | src/otlp_metrics_encoder.c:161-521 | The data point of every kind is read back |
| OtlpMetrics.MetricConforms | src/otlp_metrics_encoder.c:583-647 | Every metric conforms to the schema at each level |
| OtlpMetrics.MetricRoundTrip | src/otlp_metrics_encoder.c:583-647 | From its bytes a metric of every kind is read back by field number |
| OtlpMetrics.MetricsRequestRoundTrip | src/otlp_metrics_encoder.c:649-711 | Every metrics request parses back into its tree, exactly, at every level |
| RequestReadBack.MetricsRequestReadBack | src/otlp_metrics_encoder.c:649-711 | From the bytes of a metrics request: the resource and scope as in a trace request, as many metrics as were given, the i-th of the kind and with every field of the i-th, and the schema URL |
| RequestReadBack.KindIsRead | src/otlp_metrics_encoder.c:583-647 | An encoded metric has the data field of its kind once and that of no other kind |
| MetricsEncode.EmitPackCounts | src/otlp_metrics_encoder.c:395-414 | The packed loop appends the varints of the counts as one field, or nothing; a failure leaves a prefix, and with memory and room there is none |
| MetricsEncode.EmitPackNumbers | src/otlp_metrics_encoder.c:289-341 | The packed loop appends the fixed-width numbers as one field, or nothing; a failure leaves a prefix, and with memory and room there is none |
| MetricsEncode.EmitExemplar | src/otlp_metrics_encoder.c:103-159 | An exemplar is written as its fields; a failure leaves a prefix, and with memory and room there is none |
| MetricsEncode.EncodeNumber | src/otlp_metrics_encoder.c:161-222 | A number data point is written as its fields in order; a failure leaves a prefix, and with memory and room there is none |
| MetricsEncode.EncodeHistogram | src/otlp_metrics_encoder.c:224-368 | A histogram point is written as its fields in order; a failure leaves a prefix, and with memory and room there is none |
| MetricsEncode.EmitBuckets | src/otlp_metrics_encoder.c:372-421 | Exponential buckets, or nothing without counts; a failure leaves a prefix, and with memory and room there is none |
| MetricsEncode.EncodeExpHistogram | src/otlp_metrics_encoder.c:423-521 | An exponential histogram point is written as its fields in order; a failure leaves a prefix, and with memory and room there is none |
| MetricsEncode.EncodeData | src/otlp_metrics_encoder.c:556-581 | The data point, then the extra fields of the kind; a failure leaves a prefix, and with memory and room there is none |
| MetricsEncode.EmitMetric | src/otlp_metrics_encoder.c:583-647 | A metric is written as its tree; a failure leaves a prefix, and with memory and room there is none |
| MetricsEncode.EncodeMetricsRequest | src/otlp_metrics_encoder.c:649-711 | The request is written as its tree; a failure leaves a prefix, and with memory and room there is none |
| MetricsEncode.EncodedMetricsParse | src/otlp_metrics_encoder.c:649-711 | From what the encoder writes into an empty buffer a reader gets back resource, scope, every metric in order and schema URL; it is written whenever the allocator refuses nothing and the request has at most 2^63 bytes |
| PartialSuccess.MergeTheorem | src/exporter_otel.c:283-327 | Any number of well-formed PartialSuccess fields, with any other fields in between, decode like one field with all their contents; without one there is no report |
| PartialSuccess.WellFormedSub | src/exporter_otel.c:239-281 | A submessage that a strict walk accepts means what its fields say, the last of a number winning |
| PartialSuccess.SubAcceptedIff | src/exporter_otel.c:239-281 | Any bytes are accepted exactly when what follows the last whole field is a key read that fails at the end of the buffer, and then mean their whole fields |
| PartialSuccess.LenientIff | src/exporter_otel.c:258-259 | The decoder differs from the strict walk exactly on a broken last key |
| PartialSuccess.ResponseAcceptedIff | src/exporter_otel.c:283-327 | A response of any bytes is accepted exactly when a whole field of it is a PartialSuccess and what follows the last whole field, of the response and of every submessage, is a key read that fails at the end; it then means the whole fields of its submessages |
| PartialSuccess.ReportedIsLast | src/exporter_otel.c:239-327 | What is reported of any response that is accepted: the signed 64-bit value of the last varint numbered 1 of all submessages, 0 without one, and the bytes of the last text numbered 2, none without one |
| PartialSuccess.ResponseLenientIff | src/exporter_otel.c:305 | It accepts all that a strict reader does, and more exactly where something is left at an end and everything left is a broken last key |
| PartialSuccess.BrokenResponseAccepted | src/exporter_otel.c:305 | An empty PartialSuccess with a truncated key behind it is accepted |
| PartialSuccess.BrokenEndsAccepted | src/exporter_otel.c:258-259 | A truncated key and a zero key at the end are taken for a clean end |
| PartialSuccess.ReadSub | src/exporter_otel.c:239-281 | The loop over a submessage decodes it and ends; the message is a slice of the body |
| PartialSuccess.DecodePartialSuccess | src/exporter_otel.c:283-327 | The loop over the response decodes any bytes and ends; it gives the last rejected count, and the last message as a slice of the body |
| HttpChunked.DecodedIff | src/http_response_parser.c:56-132 | The chunked decoder accepts exactly the code's dialect of section 4.1 of RFC 7230 and yields the concatenated chunk data: extensions are any bytes without CR after a semicolon, chunk data has at most 65536 bytes, the trailer is any bytes up to a blank line or an immediate CRLF |
| HttpChunked.DecodeExtends | src/http_response_parser.c:56-132 | More bytes change its verdict only where it was that more are needed |
| HttpChunked.NeedMoreIff | src/http_response_parser.c:56-132 | It asks for more exactly when some further bytes complete the body, or in two stuck shapes: a size line without digits, and chunk data followed by one byte that is not CR |
| HttpChunked.CompletesIff | src/http_response_parser.c:56-132 | Some further bytes complete the body exactly when it is neither malformed nor stuck |
| HttpChunked.StuckOccurs | src/http_response_parser.c:64-118 | Both stuck shapes occur: an empty size line, and a chunk of one byte with two |
| HttpChunked.DecodeChunkedInPlace | src/http_response_parser.c:56-132 | In one call on any buffer: the verdict on the original bytes, the decoded data of the whole chunks at the front, every byte behind it and outside unaltered |
| HttpChunked.ReadSizeLine | src/http_response_parser.c:64-95 | The loops over a size line, with the cap on the size |
| HttpChunked.FindBlankLine | src/http_response_parser.c:30-46 | The first blank line, or none |
| HttpChunked.Resume | src/http_response_parser.c:56-132 | Decoding may resume where the whole chunks end |
| HttpChunked.WholeIsMaximal | src/http_response_parser.c:56-132 | What an incomplete call has compacted are all the whole chunks |
| HttpChunked.ReparseWithoutChunk | src/http_response_parser.c:122-131 | As long as no chunk was whole the buffer may be parsed again |
| HttpChunked.ReparseNeverCompletesIff | src/http_response_parser.c:122-131 | Parsing the buffer that a call has left again can never complete exactly when it is malformed or stuck; so it is whenever a chunk was whole and the data starts with no hex digit |
| HttpChunked.ReparseDiffers | src/http_response_parser.c:122-131 | "hello" in one chunk is lost when the last chunk arrives after the first call |
| HttpStream.StreamDecodes | src/http_response_parser.c:56-132 | An automaton that is fed one byte at a time comes to the verdict of the decoder on any bytes |
| HttpStream.GoesOnAlikeIff | src/http_response_parser.c:56-132 | Two bodies are decoded alike with every continuation exactly when the automaton comes to the same state on both, but for data that can no longer be returned: its states are the least that decide |
| HttpStream.ReparseAgreesIff | src/http_response_parser.c:122-131 | Parsing the buffer that a call has left again, with whatever arrives, agrees with the body that was received exactly when one pass over it comes to the same state |
| HttpStream.SameChunksAgree | src/http_response_parser.c:122-131 | So it does whenever the same whole chunks are found in the buffer that was left |
| HttpResponse.VerdictIsStable | src/http_response_parser.c:134-341 | A complete response stays complete with the same status, retry time and body, and a malformed one malformed, whatever bytes follow |
| HttpResponse.EofOnlyCompletes | src/http_response_parser.c:324-336 | The end of the stream changes the verdict only of a response that was incomplete |
| HttpResponse.FoldMeans | src/http_response_parser.c:194-293 | The header scan succeeds exactly when all Content-Length lines are within the cap and agree, and collects what the lines say: last Retry-After, last deciding Connection line |
| HttpResponse.ScanIsFold | src/http_response_parser.c:187-285 | The scan by position reads the header line by line to its end |
| HttpResponse.MalformedIff | src/http_response_parser.c:134-341 | A response with a complete header is malformed exactly for a bad status line, refused framing headers or malformed chunks |
| HttpResponse.RenderedParses | src/http_response_parser.c:134-341 | A rendered response is judged by its own lines and its own body |
| HttpResponse.LengthRoundTrip | src/http_response_parser.c:316-323 | With a Content-Length the body comes back, whatever follows it |
| HttpResponse.ChunkedRoundTrip | src/http_response_parser.c:290-313 | With the chunked coding the data of the chunks comes back |
| HttpResponse.LengthIsRead | src/http_response_parser.c:204-230 | A Content-Length of n is read as n up to the cap and refused above it |
| HttpResponse.RetryIsRead | src/http_response_parser.c:243-271 | A Retry-After of any number of digits is its value, saturated |
| HttpHeaders.NamesAre | src/http_response_parser.c:205-272 | The lines that count are those that begin with the four header names and a colon, in any case |
| HttpHeaders.ConnectionIsRead | src/http_response_parser.c:272-284 | Behind any spaces close, in any case, ends the connection, keep-alive keeps it, and any other value leaves it as it was |
| HttpHeaders.ConnectionIsLast | src/http_response_parser.c:272-284 | The last line that says close or keep-alive decides; without one the default holds |
| HttpHeaders.EncodingIsRead | src/http_response_parser.c:228-242 | Only the bare word chunked, in any case, is a coding that is decoded |
| HttpHeaders.LengthIsNumber | src/http_response_parser.c:204-230 | On any line: the number of the leading digits, none meaning 0, up to 64 KiB; a larger one is refused |
| HttpHeaders.RetryIsNumber | src/http_response_parser.c:243-271 | On any line: the number of at most ten leading digits, cut off at 4294967, in milliseconds |
| HttpHeaders.RetryIsLast | src/http_response_parser.c:243-271 | The last Retry-After line counts |
| HttpHeaders.StatusIsRead | src/http_response_parser.c:155-175 | The status is the three digits behind the first space, and the connection is persistent by default from HTTP/1.1 on |
| HttpHeaders.UntilEofRoundTrip | src/http_response_parser.c:324-336 | Without a length and a coding the body is all that arrives before the stream ends, and the connection is not kept |
| HttpHeaders.RenderedVerdict | src/http_response_parser.c:134-341 | Any rendered response: refused framing is malformed, otherwise the body is framed by the chunks, the length or the end, in this order; status, retry time and keep-alive are what its lines say |
| HttpResponse.NoCase | src/http_response_parser.c:204-284 | The case-insensitive comparison stays inside the line |
| HttpResponse.ReadLine | src/http_response_parser.c:204-284 | One header line is read as its meaning says |
| HttpResponse.ScanHeaders | src/http_response_parser.c:194-285 | The loop over the header lines |
| HttpResponse.ReadStatusLine | src/http_response_parser.c:155-175 | The status is read within bounds |
| HttpResponse.ParseResponse | src/http_response_parser.c:134-341 | The parser on the buffer returns the verdict on its original bytes, with the body where it says |
| Utf8.ValidIff | src/internal_util.c:632-689 | The check accepts exactly the encodings of sequences of Unicode scalar values (sections 3 and 4 of RFC 3629) |
| Utf8.EncodeAllInjective | src/internal_util.c:632-689 | An accepted string encodes one sequence only |
| Utf8.IsUtf8 | src/internal_util.c:632-689 | The loop over the C string computes the check |
| AttrCopy.Heap.CopyOne | src/internal_util.c:183-341 | With allocation failing at any point: on success a copy of equal structure, in any case the new live blocks are exactly those the copy owns |
| AttrCopy.Heap.CopyArray | src/internal_util.c:235-279 | A failing array copy has freed everything it allocated |
| AttrCopy.Heap.CopyKvList | src/internal_util.c:280-336 | A failing list copy has freed everything it allocated |
| AttrCopy.Heap.CopyItems | src/internal_util.c:260-277 | The loop with its cleanup: the item it failed at, then those before it |
| AttrCopy.Heap.CopyAll | src/internal_util.c:343-366 | On success equal structure, and the copy names each of its blocks once, none of them live before, so that it shares none with its source; on failure the live set is unchanged |
| AttrEncode.CopyEncodesAlike | src/internal_util.c:183-341 | A deep copy has the key of its original and its bytes on the wire, and may be copied again |
| AttrCopy.Heap.ReleaseValue | src/internal_util.c:114-166 | Exactly the blocks of the value are freed |
| AttrCopy.Heap.FreeAttribute | src/internal_util.c:168-176 | Exactly the blocks of the attribute are freed |
| AttrVecModel.UpsertIsMapUpdate | src/internal_util.c:575-630 | The upsert is the update of an insertion-ordered map: the key reads back, all other keys and positions stay, keys stay distinct |
| AttrVecModel.UpsertTwice | src/internal_util.c:575-630 | The last write wins |
| AttrVecModel.ReplayIsLastWrite | src/internal_util.c:693-824 | After any sequence of sets each key has the value of the last set of it that succeeded, or what it had; keys stay distinct and keep their positions, and the maximum is kept |
| AttrVecModel.KnownKeyKeepsItsSlot | src/internal_util.c:582-597 | In any sequence of sets a key that is there, or was once set, is never refused for want of room |
| AttrVecModel.BuildArray | src/internal_util.c:415-457 | An array of the stored values, or no block left behind; the answer is that of the first value at fault, or out of memory |
| AttrVecModel.BuildKvList | src/internal_util.c:459-522 | A list of the stored entries, or no block left behind; the answer is that of the first entry at fault, or out of memory |
| AttrVecModel.AttrVec.FindKey | src/internal_util.c:555-573 | The position of the key |
| AttrVecModel.AttrVec.Grow | src/internal_util.c:599-616 | The new capacity is the old one doubled, 4 at first, and never beyond the maximum; a failure keeps the old slots |
| AttrVecModel.AttrVec.Reserve | src/internal_util.c:575-630 | The emptied slot of the key, also at the maximum, or a new one; a failure changes no slot |
| AttrVecModel.AttrVec.Set | src/internal_util.c:693-770 | Upserts the stored value and answers OK, or leaves the map as it is: a fault of the value, no room (only for a new key), a key that is not UTF-8, out of memory; n <= cap <= max, keys distinct and UTF-8, no block leaks |
| AttrVecModel.AttrVec.SetArray | src/internal_util.c:772-797 | The same for an array, whose fault is that of its first value at fault; a known key is overwritten at the maximum |
| AttrVecModel.AttrVec.SetKvList | src/internal_util.c:799-824 | The same for a list, whose fault is that of its first entry at fault; a known key is overwritten at the maximum |
| AttrVecModel.AttrVec.FreeAll | src/internal_util.c:849-866 | Everything the vector owns is freed, once |
| SlabModel.Slab.constructor | src/slab.c:175-212 | All slots are free, slot 0 on top of the stack |
| SlabModel.Slab.Create | src/slab.c:175-212 | Nothing for a size or capacity of zero or without memory, otherwise a slab whose slots are all free, their size rounded up |
| SlabModel.SlotsDisjoint | src/slab.c:235-246 | Two slots have no byte in common |
| SlabModel.StackCounts | src/slab.c:235-292 | Slots in use and free slots are all slots |
| SlabModel.Slab.InUseCounts | src/slab.c:235-292 | in_use is the number of used slots and slab_hits - slab_free_hits |
| SlabModel.Slab.Alloc | src/slab.c:235-256 | A free slot, popped from the stack, or a block behind the slab |
| SlabModel.Slab.FreePtr | src/slab.c:258-292 | The slot goes back on the stack; freeing it again changes no slot |
| SlabModel.Slab.AllocHook | src/slab.c:55-61 | A block that was not live, and no other block changes |
| SlabModel.Slab.FreeHook | src/slab.c:63-94 | The block is no longer live, and no other block changes |
| SlabModel.Slab.ReallocHook | src/slab.c:103-135 | The first min(size, n) bytes are preserved, a failure keeps the block, no other block changes |
| Retry.BaseDelayIs | src/retry_policy.c:18-30 | The base is min(initial * 2^min(attempt-1, 31), max) |
| Retry.BaseDelayGrows | src/retry_policy.c:18-30 | It never falls from one attempt to the next |
| Retry.BaseDelayDoubles | src/retry_policy.c:18-30 | Each attempt doubles it until the cap |
| Retry.RetryBaseDelayMs | src/retry_policy.c:18-30 | The 64-bit shift computes it without loss |
| Retry.DelayRespectsFloorIff | src/retry_policy.c:32-60 | The delay never passes the cap; it respects the server's floor under the cap exactly when the base is not zero or the floor asks nothing (section 7.1.3 of RFC 7231) |
| Retry.BaseZeroIff | src/retry_policy.c:39-50 | The base is zero exactly when the initial delay or the cap is |
| Retry.ZeroInitialIgnoresFloor | src/retry_policy.c:43-50 | With an initial delay of zero a Retry-After is ignored |
| Retry.DelayWithoutFloor | src/retry_policy.c:51-59 | The delay is server driven exactly when the floor decided it |
| Retry.JitterCoversRange | src/retry_policy.c:51 | Every delay up to the base can be drawn |
| Retry.JitterNonzero | src/retry_policy.c:6-16 | A nonzero state stays nonzero and never yields zero |
| Retry.RetryDelayMs | src/retry_policy.c:32-60 | The function computes the delay and the next state |
| Prng.XorShiftInverse | src/tracer.c:70-77 | The three shifts are a bijection of the 64-bit words |
| Prng.NextIsPermutation | src/tracer.c:70-77 | With the odd multiplier the generator permutes the 64-bit values, and only zero goes to zero |
| Prng.DrawsAreOneChain | src/tracer.c:80-96 | Whatever the threads do, their draws together are the consecutive values of one chain, none skipped, repeated or zero |
| Prng.RepeatMeansCycle | src/tracer.c:70-96 | Two equal draws mean that the generator had come back to its seed |
| Prng.Tracer.PrngNext | src/tracer.c:80-96 | The CAS loop returns the value it stored, never zero |
| Prng.BigEndianRoundTrip | src/tracer.c:100-111 | The eight bytes of a word give the word back |
| Prng.PutUint64Be | src/tracer.c:100-111 | The bytes are written, the highest first |
| Prng.Tracer.FillRandomBytes | src/tracer.c:116-146 | The bytes of consecutive draws, never all zero, so that the second attempt is never made |
| Traceparent.ParseFormat | src/w3c.c:30-179 | A formatted header is parsed to its own ids and sampled bit, and refused exactly when an id is zero |
| Traceparent.FormatParseIff | src/w3c.c:30-179 | Formatting what was parsed gives the header in lower case exactly for version 00 and flags 00 or 01 (section 3.2.2 of W3C Trace Context) |
| Traceparent.FormatRaw | src/w3c.c:30-74 | The 55 characters and the terminator, or nothing when they do not fit |
| Traceparent.ReadHex | src/w3c.c:117-143 | The bytes of an id and whether one is nonzero, or failure at a character that is no hex digit; both digits of a pair are read before they are looked at |
| Traceparent.ParseHeader | src/w3c.c:98-179 | The parser answers as the grammar says and fills ids and flags, whatever byte stands behind the terminator; how far it reads |
| Traceparent.ReadsBehindIff | src/w3c.c:105-152 | The parser reads at most one byte behind the terminator, and does so exactly when the header ends where the first digit of a pair is expected and is a header so far |
| Traceparent.ReadsBehindShort | src/w3c.c:117-120 | 00- is such a header |

## Left out

- Weak memory: release and acquire orders are read as sequential consistency.
- Counters of the ring at or beyond 2^63, and wrap-around of the 64-bit statistics.
- The ring's index mask `t & (capacity - 1)` is the slot number modulo the capacity.
- Sockets, DNS, TLS, the clock, sleeping and the request builder are inputs of the exporter's steps; `src/http_client.c`, `src/exporter_sync.c`, `src/env_config.c`, `src/context.c` and `src/log.c` are not part of this model.
- The keep-alive socket, event callbacks, diagnostics text, clone variants of emit and NULL arguments of the public functions.
- The exporter's queue is the atomic bounded FIFO that `MpscRing.StepRefinesBoundedFifo` and the class `MpscQueue` establish for two or more slots; it is not the array of slots, and an exporter with one slot is not modelled beyond its ring.
- `PbBuf.plenty` stands for an allocator that refuses nothing; allocations of the attribute heap may always fail.
- ExporterModel.OtlpExporter.Flush: without the assumption that no producer interferes with its last reads an OK says only that the batches and the request were empty, because each queue size is read on its own.
- ExporterModel.OtlpExporter.TickUntil: how many rounds fit before the deadline is an input; the clock does not appear.
- The log encoder of `src/otlp_logs_encoder.c` repeats the shape of the trace encoder.
- Metric accumulation (`src/metric.c`) and the ratio sampler (`src/sampler.c`): floating point.
- A metric kind outside the encoder's table, and an attribute type outside the enumeration.
- Attribute trees are values that name the blocks they own; writes through pointers into a block are not modelled, allocation, freeing and ownership are.
- Sizes of structs (32 and 40 bytes for attribute and entry, 16 for a list head) are those of a 64-bit platform; slab sizes whose product exceeds a size_t are not modelled.
- The slab's fallback allocator hands out opaque addresses outside the arena; which of the two allocators behind it serves a block is not told apart.
- Field numbers are taken from `src/otlp_schema.h` as given.
- HTTP responses longer than 2^31 bytes, where the offset of the blank line is cast to int.
- Span identifiers beyond their bytes: sampling and span lifecycle (`src/tracer.c` from line 208 on).
