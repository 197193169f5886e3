# TfaccClient: a Dafny model of fastllm's host-side accelerator client

This project is a model, written in Dafny, of the host side of fastllm's
Thinkforce accelerator channel. The source is `TfaccClient` and its helper
`U8Buffer`, in `src/devices/tfacc/fastllm-tfacc.cpp`. The host and the
accelerator share a 64 MiB mapping with three parts:

- a 32 MiB command area;
- a 31 MiB result area;
- a flag word for each compute partition, 16 Ki words apart.

The model keeps the source's constants: the 28 MiB transfer limit, the
operation codes and the offsets in the mapping.

The model is imperative, as the source is:

- `U8Buffer` is a class whose methods append to a `seq<byte>` field.
- `TfaccClient` is a class with three arrays for the three areas. It also has
  a `posted` log, holding every round launched with the command area as
  launched, and a `registerDataNames` set field.
- `Launch` writes the flag slots in a loop.
- `SendLongMessage` and `RunTfaccLinearU` loop over offsets. They write the
  command area and copy results into the caller's `output` array.

Each method is proved against specification functions:

- `Chunks` gives the chunking of a long message.
- `RegistrationPayload` and `UnregisterPayload` give the wire format of the
  tensor registry.
- `Walk`, `SubBatches` and `Batches` give the sub-batching of the linear op.
- `Carries` and `BatchCommand` give one sub-batch's command layout.
- `ReadBack` gives what ends up in `output`.

Lemmas then prove what the source promises about these functions:

- The chunks are bounded and reassemble the buffer.
- There are ceil(len / transLimit) StartLongData rounds and then exactly one
  FinishLongData round.
- Registration is idempotent, and each real registration sends exactly one
  message.
- The registration bytes decode back to every field.
- The sub-batches partition `[0, n)`.
- Every command decodes back to the fields written.
- Every sub-batch's results land at byte `baseN * k * 4` of the output.

The accelerator is a parameter of the model. `peer` is a function from the
rounds posted so far to the result area the accelerator leaves. Its side of
the protocol is modelled in two places:

- `Received` gives the messages it has assembled from the StartLongData and
  FinishLongData rounds.
- The decoders `DecodeRegistration` and `ParseLinearCommand` give how it
  reads the registration bytes and the linear commands.

Modules and files:

- `wire.dfy` (`Wire`): bytes, 32-bit two's complement stores and loads, float
  bit patterns, ranges, and a reader for each encoding.
- `u8buffer.dfy` (`Buffer`): the `U8Buffer` class.
- `protocol.dfy` (`Protocol`): the layout of the mapping, the op codes, rounds,
  chunking, and the accelerator's inbox.
- `registration.dfy` (`Registration`): tensors and the registration wire
  format, with its decoder.
- `linear.dfy` (`Linear`): op selection, sub-batch sizing and walking, the
  command layout and its parser, and the read-back of results.
- `client.dfy` (`Client`): the `TfaccClient` class and the methods that build
  the messages in a `U8Buffer`.

The code does its bookkeeping before sending, and the model keeps that order:

- The code records a name in `registerDataNames` before it sends the
  registration, not after. It also removes a name before sending the
  unregistration. The methods do the same.

In three places the code is wrong and the methods follow a corrected
version. The code as written is modelled beside each one, with a lemma that
shows the failure (see "## Findings"):

- The code sizes sub-batches from the transfer limit alone, so a sub-batch
  command can overrun the command area. `SourceMaxN` is the code's size.
  `RunTfaccLinearU` uses the corrected `FittingMaxN`, which equals the
  code's size wherever the code's command fits.
- The code's chunk offset is a 32-bit `int`, so messages longer than
  73 * transLimit bytes break the chunk loop. `SourceOffset` is the code's
  offset. `SendChunks` uses an unbounded offset.
- The code passes the registration's lengths as `int`. A message of 2^31 to
  2^32 - 1 bytes therefore throws after the name has been recorded.
  `SourceRegister` is the code's registration. `RegisterFastllmData`
  accepts only messages that fit an `int`, as `IntendedRegister` does.

## Model

In this table, `fastllm-tfacc.cpp` stands for `src/devices/tfacc/fastllm-tfacc.cpp`.

| member | source | states |
|---|---|---|
| Buffer.U8Buffer.constructor | src/devices/tfacc/fastllm-tfacc.cpp:28-29 | a new buffer is empty |
| Buffer.U8Buffer.Clear | src/devices/tfacc/fastllm-tfacc.cpp:31-33 | the buffer is empty afterwards |
| Buffer.U8Buffer.WriteInt | src/devices/tfacc/fastllm-tfacc.cpp:35-39 | grows by exactly 4 bytes; the old prefix is unchanged; the tail is the little-endian 32-bit store of `v` |
| Buffer.U8Buffer.WriteFloat | src/devices/tfacc/fastllm-tfacc.cpp:41-45 | grows by exactly 4 bytes; the old prefix is unchanged; the tail is the float's 4 bytes |
| Buffer.U8Buffer.WriteBytes | src/devices/tfacc/fastllm-tfacc.cpp:47-51 | grows by exactly `len` bytes; the old prefix is unchanged; the tail is the first `len` bytes of `v` |
| Wire.ToInt32 | src/devices/tfacc/fastllm-tfacc.cpp:112 | the value a C `int` holds: in range, congruent to the input mod 2^32, the input itself when it fits, and the input minus 2^32 in [2^31, 2^32) |
| Wire.DecodeEncodeInt32Wraps | src/devices/tfacc/fastllm-tfacc.cpp:35-39 | loading a 32-bit store of `v` gives `v` truncated to 32 bits |
| Wire.DecodeEncodeInt32 | src/devices/tfacc/fastllm-tfacc.cpp:35-39 | on 32-bit values, the store and the load are inverse |
| Wire.EncodeInt32Injective | src/devices/tfacc/fastllm-tfacc.cpp:35-39 | two different 32-bit values are never stored as the same 4 bytes |
| Wire.ReadEncodedInts | src/devices/tfacc/fastllm-tfacc.cpp:140-143 | the dimension stores read back as the same integers, and the rest is left over |
| Wire.ReadEncodedRanges | src/devices/tfacc/fastllm-tfacc.cpp:152-155 | the (min, max) float pairs read back as the same ranges, and the rest is left over |
| Protocol.Chunks | src/devices/tfacc/fastllm-tfacc.cpp:112-115 | the chunks the long-message loop cuts a buffer into: none exactly for the empty buffer, and never more chunks than bytes; ChunksBounded, ChunksAreSlices, ChunksReassemble and ChunksCount prove the rest |
| Protocol.ChunksBounded | src/devices/tfacc/fastllm-tfacc.cpp:112-113 | every chunk length `cur = min(transLimit, len - i)` satisfies `0 < cur <= transLimit` |
| Protocol.ChunksAreSlices | src/devices/tfacc/fastllm-tfacc.cpp:112-115 | chunk `j` is the slice `[j * transLimit, min((j + 1) * transLimit, len))` of the buffer |
| Protocol.ChunksReassemble | src/devices/tfacc/fastllm-tfacc.cpp:112-115 | the chunk payloads laid end to end, in order, are the whole buffer |
| Protocol.ChunksCount | src/devices/tfacc/fastllm-tfacc.cpp:112-113 | there are ceil(len / transLimit) chunks, and all but the last are full |
| Protocol.ChunkPayloadOfCarried | src/devices/tfacc/fastllm-tfacc.cpp:114-115 | a command starting with a chunk's 4-byte length and its bytes hands over exactly that chunk |
| Protocol.LongMessageRounds | src/devices/tfacc/fastllm-tfacc.cpp:112-120 | a long message is ceil(len / transLimit) StartLongData rounds and then exactly one FinishLongData; for `len = 0`, only the Finish |
| Protocol.ChunksThenFinish | src/devices/tfacc/fastllm-tfacc.cpp:112-120 | rounds that carry every chunk in order, followed by a FinishLongData round, form the long message |
| Protocol.CarryChunksSnoc | src/devices/tfacc/fastllm-tfacc.cpp:112-118 | a round that carries the next chunk extends the rounds that carry the chunks before it |
| Protocol.ReceivedChunks | src/devices/tfacc/fastllm-tfacc.cpp:112-118 | after the first `j` chunk rounds, the accelerator has the first `j` chunks appended to what was pending |
| Protocol.LongMessageDelivered | src/devices/tfacc/fastllm-tfacc.cpp:111-121 | after a long message's rounds, the accelerator holds the buffer as one more completed message, and nothing is pending |
| Protocol.SourceOffset | src/devices/tfacc/fastllm-tfacc.cpp:112 | the offset at the loop's `j`-th iteration as written: 0 advanced `j` times by `transLimit` with 32-bit wrap-around, so always a 32-bit `int` |
| Protocol.SourceNextOffset | src/devices/tfacc/fastllm-tfacc.cpp:112 | the chunk offset after the increment, as written: 32-bit, and `i + transLimit` while that fits |
| Protocol.SourceOffsetsBeforeWrap | src/devices/tfacc/fastllm-tfacc.cpp:112 | offsets 0 to 73 of the loop as written are the multiples of transLimit |
| Protocol.SourceChunkLoopWraps | src/devices/tfacc/fastllm-tfacc.cpp:112-114 | the last chunk of a message longer than 73 * transLimit starts inside it, and the next offset is negative but still below `len` |
| Registration.TagDeterminesLayout | src/devices/tfacc/fastllm-tfacc.cpp:145-157 | the type tag alone tells whether a plain, a per-channel or a grouped section follows |
| Registration.EncodeSection | src/devices/tfacc/fastllm-tfacc.cpp:144-167 | the bytes of a section, for each layout; DecodeEncodeSection proves that they decode back to the section |
| Registration.RegistrationHead | src/devices/tfacc/fastllm-tfacc.cpp:136-143 | defined as the length-prefixed config, then the number of dims and the dims, each as a 4-byte int |
| Registration.SectionFields | src/devices/tfacc/fastllm-tfacc.cpp:144-166 | a section's bytes are its fields followed by its raw tensor bytes, which are written last |
| Registration.PayloadEndsWithRaw | src/devices/tfacc/fastllm-tfacc.cpp:136-167 | a registration message ends with the tensor's raw bytes, starting at byte `RawOffset` (the buffer's size when WriteBytes is reached) |
| Registration.RegisterConfig | src/devices/tfacc/fastllm-tfacc.cpp:129-134 | the registration config text, keys in json11's sorted order; RegistrationRoundTrip proves that the accelerator recovers it exactly |
| Registration.UnregisterConfig | src/devices/tfacc/fastllm-tfacc.cpp:179-183 | the unregistration config text; UnregisterRoundTrip and UnregisterPayloadInjective prove that it is recovered exactly and is different for every name |
| Registration.RegistrationPayload | src/devices/tfacc/fastllm-tfacc.cpp:136-167 | the whole registration message; DecodeEncodeRegistration and RegistrationRoundTrip prove that every field decodes back from it |
| Registration.SectionOf | src/devices/tfacc/fastllm-tfacc.cpp:144-168 | float types get tag and raw bytes; per-channel types get `k` pairs, `k = (axis == -1 ? 1 : dims[axis])`; INT4_GROUP gets `k * group` pairs; other types get no section |
| Registration.UnregisterPayload | src/devices/tfacc/fastllm-tfacc.cpp:185-187 | the unregistration message is 4 bytes longer than its config |
| Registration.DecodeEncodePerChannel | src/devices/tfacc/fastllm-tfacc.cpp:148-156 | a per-channel section decodes back to its tag, axis, ranges and raw bytes |
| Registration.DecodeEncodeGrouped | src/devices/tfacc/fastllm-tfacc.cpp:157-167 | a grouped section decodes back to its tag, axis, group, group count, ranges and raw bytes |
| Registration.DecodeEncodeSection | src/devices/tfacc/fastllm-tfacc.cpp:144-168 | every well-formed section decodes back to itself |
| Registration.DecodeEncodeRegistration | src/devices/tfacc/fastllm-tfacc.cpp:137-168 | config length, config, dimension count, dimensions and section all decode back from the message |
| Registration.RegistrationRoundTrip | src/devices/tfacc/fastllm-tfacc.cpp:129-168 | the accelerator recovers a tensor's config, shape and type-tagged section from its registration message |
| Registration.UnregisterRoundTrip | src/devices/tfacc/fastllm-tfacc.cpp:179-187 | the accelerator recovers the exact config text from an unregistration message |
| Registration.UnregisterFitsWhenRegistered | src/devices/tfacc/fastllm-tfacc.cpp:179-187 | a tensor whose registration message fits an `int` has an unregistration message that fits one too, so every name the client records can be unregistered |
| Registration.UnregisterPayloadInjective | src/devices/tfacc/fastllm-tfacc.cpp:179-187 | different names give different unregistration messages |
| Linear.LinearOp | src/devices/tfacc/fastllm-tfacc.cpp:198-201 | the op is LinearInt8 exactly when the weight is INT8, and LinearInt4NoZero otherwise |
| Linear.BiasName | src/devices/tfacc/fastllm-tfacc.cpp:203-204 | the bias name is empty when the bias has no dims or its `cpuData` is null, and is the bias's name otherwise |
| Linear.SourceMaxN | src/devices/tfacc/fastllm-tfacc.cpp:206-208 | the source's `maxN`: at most `n`; a sub-batch of that size has input and results within one transfer; and it is the largest such size below `n` |
| Linear.FittingMaxN | src/devices/tfacc/fastllm-tfacc.cpp:206-208 | the corrected sub-batch size: never more than the source's `maxN`, and rows of that size, with their ranges, fit the command area left after the header and the names |
| Linear.FittingMaxNFits | src/devices/tfacc/fastllm-tfacc.cpp:206-208 | with the corrected size, a sub-batch's command fits the command area, and its input and results fit the transfer limit |
| Linear.FittingMaxNAgrees | src/devices/tfacc/fastllm-tfacc.cpp:206-208 | wherever the source's own `maxN` keeps the command inside the command area, the corrected size equals it |
| Linear.FittingMaxNSizeFits | src/devices/tfacc/fastllm-tfacc.cpp:206-208 | a positive corrected size meets the sizing assumption the sub-batch loop is proved under |
| Linear.SourceMaxNOverrunsCommandArea | src/devices/tfacc/fastllm-tfacc.cpp:206-230 | for n = 7 Mi, m = 1, k = 1, the source's `maxN` is 7 Mi, and the command runs to byte 66060328, past the flag words at 63 MiB |
| Linear.Walk | src/devices/tfacc/fastllm-tfacc.cpp:211-212 | the sub-batches of the loop from `baseN`: each one starts at a row in `[baseN, n)`; WalkEnds, WalkContiguous and WalkRows prove the rest |
| Linear.SubBatches | src/devices/tfacc/fastllm-tfacc.cpp:211-212 | the sub-batches of the whole loop: each one starts at a row below `n`; SubBatchesPartition proves that they partition `[0, n)` |
| Linear.Plan | src/devices/tfacc/fastllm-tfacc.cpp:211-212 | the sub-batches for a chosen size: none exactly when there are no rows |
| Linear.Batches | src/devices/tfacc/fastllm-tfacc.cpp:206-212 | the sub-batches RunTfaccLinearU runs: none exactly when `n <= 0`, otherwise each has 1 to `FittingMaxN` rows |
| Linear.WalkEnds | src/devices/tfacc/fastllm-tfacc.cpp:211-212 | the walk from `baseN` is empty exactly when `baseN >= n`; otherwise it starts at `baseN` and its last sub-batch ends at `n` |
| Linear.WalkContiguous | src/devices/tfacc/fastllm-tfacc.cpp:211-212 | every sub-batch has 1 to `maxN` rows, and each one starts where the one before it ended |
| Linear.WalkRows | src/devices/tfacc/fastllm-tfacc.cpp:211-212 | listed in order, the rows of the walk from `baseN` are `baseN, ..., n - 1` |
| Linear.WalkStep | src/devices/tfacc/fastllm-tfacc.cpp:211-212 | one turn of the loop moves sub-batch `(baseN, min(maxN, n - baseN))` from the walk still to go to the sub-batches done |
| Linear.SubBatchesPartition | src/devices/tfacc/fastllm-tfacc.cpp:211-212 | the sub-batches partition `[0, n)` contiguously, with no row duplicated or skipped, and `n <= 0` gives none |
| Linear.SmallBatchOneRound | src/devices/tfacc/fastllm-tfacc.cpp:211-212 | a batch of at most `maxN` rows is exactly one sub-batch |
| Linear.ScenarioOneSubBatch | src/devices/tfacc/fastllm-tfacc.cpp:206-212 | `n = 2, m = 4, k = 4` is one sub-batch of both rows, whose results are `2 * 4` four-byte words |
| Linear.BatchFits | src/devices/tfacc/fastllm-tfacc.cpp:211-236 | a sub-batch of the walk reads only rows below `n` and fits the command area; its results fit one transfer and end where the next sub-batch starts |
| Linear.BatchCommand | src/devices/tfacc/fastllm-tfacc.cpp:212-230 | the command for rows `[base, base + cur)`: `curN = cur`, `m`, `k` and a group of 1; the two names as given; the input configs of exactly those rows, in order; and the `cur * m` input bytes of those rows, starting at byte `base * m` |
| Linear.LinearHeader | src/devices/tfacc/fastllm-tfacc.cpp:213-218 | the six header ints take exactly the 24 bytes before the 16 unused ones |
| Linear.LinearBody | src/devices/tfacc/fastllm-tfacc.cpp:220-230 | the body from byte 40 is 8 bytes per range, then the two names and the input |
| Linear.ParseHeader | src/devices/tfacc/fastllm-tfacc.cpp:213-218 | ints 0..5 of a carried command read back as `curN, m, k, group, |weightName|, |biasName|` |
| Linear.ParseBody | src/devices/tfacc/fastllm-tfacc.cpp:220-230 | from byte 40 the ranges, the weight name, the bias name and the `curN * m` input bytes read back |
| Linear.Carries | src/devices/tfacc/fastllm-tfacc.cpp:213-230 | defined as: the command area holds the command's header in its first 24 bytes and its body from byte 40 |
| Linear.ParseCarried | src/devices/tfacc/fastllm-tfacc.cpp:213-230 | the accelerator reads back every field the host wrote into the command area |
| Linear.ReadBack | src/devices/tfacc/fastllm-tfacc.cpp:234-236 | the output the copies leave, one slice per round; ReadBackSnoc, ReadBackLayout and ReadBackSlices prove where each sub-batch's results land |
| Linear.ReadBackSnoc | src/devices/tfacc/fastllm-tfacc.cpp:234-236 | one more round appends its first `curN * k * 4` result bytes to the output read back |
| Linear.ReadBackLayout | src/devices/tfacc/fastllm-tfacc.cpp:234-236 | for contiguous sub-batches from row 0, sub-batch `j`'s slice sits at bytes `[base * k * 4, (base + cur) * k * 4)` |
| Linear.ReadBackSlices | src/devices/tfacc/fastllm-tfacc.cpp:211-236 | the read-back output is exactly `n * k * 4` bytes, and each sub-batch's slice is its round's result bytes |
| Client.Store | src/devices/tfacc/fastllm-tfacc.cpp:226-230 | memcpy writes the bytes at the offset, and nothing else in the array changes |
| Client.SpliceAdjacent | src/devices/tfacc/fastllm-tfacc.cpp:220-230 | two writes back to back are one write of both |
| Client.ReadBackAfter | src/devices/tfacc/fastllm-tfacc.cpp:234-236 | copying a sub-batch's results after those of the earlier sub-batches extends the read-back output by exactly that slice |
| Client.DeliverConcat | src/devices/tfacc/fastllm-tfacc.cpp:195-196 | sending two lists of messages, one after the other, delivers both lists in order |
| Client.ReceivedOtherRound | src/devices/tfacc/fastllm-tfacc.cpp:232-233 | a linear round leaves the accelerator's message inbox as it was |
| Client.RegisterTwiceSendsOnce | src/devices/tfacc/fastllm-tfacc.cpp:124-128 | registering a name twice sends one message; a name that is already present sends none and leaves the set as it is |
| Client.RegisterThenUnregister | src/devices/tfacc/fastllm-tfacc.cpp:124-178 | registering a fresh name and then unregistering it gives back the original set; the unregistration sends one message, and a second one sends none |
| Client.SourceRegister | src/devices/tfacc/fastllm-tfacc.cpp:123-171 | registration as written, with `int` lengths and wrap-around: it sends nothing exactly when it throws, and whatever it sends is the registration message |
| Client.SourceRegisterThrows | src/devices/tfacc/fastllm-tfacc.cpp:47-49 | with the source's `int` lengths, a fresh registration throws in `resize` exactly when its message does not fit an `int` |
| Client.SourceRegisterKeepsUnsentName | src/devices/tfacc/fastllm-tfacc.cpp:124-170 | as written, a message of 2^31 to 2^32 - 1 bytes throws after the name is recorded; nothing is sent, and a later registration of the same tensor sends nothing either |
| Client.IntendedRegister | src/devices/tfacc/fastllm-tfacc.cpp:123-171 | registration as intended: on a throw the set is unchanged and nothing is sent; otherwise the result is the method's names and messages; a new name is recorded exactly when its message is sent |
| Client.SourceRegisterAgrees | src/devices/tfacc/fastllm-tfacc.cpp:123-171 | wherever the message fits an `int`, the source's registration is the intended one |
| Client.TfaccClient.constructor | src/devices/tfacc/fastllm-tfacc.cpp:54-78 | fresh areas; every flag is 0; nothing posted; no name registered |
| Client.TfaccClient.Launch | src/devices/tfacc/fastllm-tfacc.cpp:87-95 | flag slot `i * PAGE` becomes `opType` for each `i < serverNumaCnt`; no other flag word changes; one round is posted with the command area as it is |
| Client.TfaccClient.Wait | src/devices/tfacc/fastllm-tfacc.cpp:97-109 | returns with the accelerator's reply in the result area and every partition's flag at 0 |
| Client.TfaccClient.SendChunk | src/devices/tfacc/fastllm-tfacc.cpp:113-117 | one StartLongData round whose command begins with the chunk's 32-bit length and then the chunk |
| Client.TfaccClient.SendNextChunk | src/devices/tfacc/fastllm-tfacc.cpp:112-117 | the turn at offset `i` sends the next chunk of the buffer, and the chunks still to go start at `min(i + transLimit, len)` |
| Client.TfaccClient.SendChunks | src/devices/tfacc/fastllm-tfacc.cpp:112-118 | one round per chunk, in order, each carrying its chunk; with an empty buffer, no round and no command-area write |
| Client.TfaccClient.SendLongMessage | src/devices/tfacc/fastllm-tfacc.cpp:111-121 | the rounds posted are the long message of the buffer, and the accelerator ends up with the buffer as one more message |
| Client.TfaccClient.RegisterFastllmData | src/devices/tfacc/fastllm-tfacc.cpp:123-171 | an empty or already registered name: nothing sent and nothing changed; otherwise the name is added and exactly one long message, the registration payload, is sent |
| Client.TfaccClient.UnregisterFastllmData | src/devices/tfacc/fastllm-tfacc.cpp:173-189 | an absent name: nothing sent and nothing changed; otherwise the name is removed and exactly one long message, the unregistration, is sent |
| Client.TfaccClient.Destroy | src/devices/tfacc/fastllm-tfacc.cpp:80-85 | the set ends empty; every name once registered is unregistered exactly once, one message each; when no message was half sent, the accelerator ends with exactly those unregistrations after its earlier messages |
| Client.TfaccClient.UnregisterNext | src/devices/tfacc/fastllm-tfacc.cpp:81-83 | one turn of the teardown loop removes the name and appends its unregistration to the messages delivered |
| Client.TfaccClient.WriteRange | src/devices/tfacc/fastllm-tfacc.cpp:222-223 | writes a range's min and then its max float at the given byte, and nothing else |
| Client.TfaccClient.WriteRanges | src/devices/tfacc/fastllm-tfacc.cpp:220-225 | the per-row (min, max) pairs lie one after another from byte 40, and nothing else changes |
| Client.TfaccClient.WriteNext | src/devices/tfacc/fastllm-tfacc.cpp:226-230 | a memcpy right after the bytes already written from byte 40 extends them |
| Client.TfaccClient.WriteLinearCommand | src/devices/tfacc/fastllm-tfacc.cpp:213-230 | the command area carries the header ints 0..5 and, from byte 40, the ranges, the weight name, the bias name and the input rows; no other byte changes |
| Client.TfaccClient.RunSubBatch | src/devices/tfacc/fastllm-tfacc.cpp:212-236 | one round posts the sub-batch's command with the selected op, and output bytes `[baseN * k * 4, (baseN + curN) * k * 4)` become the reply's first bytes; no other output byte changes |
| Client.TfaccClient.RunNextBatch | src/devices/tfacc/fastllm-tfacc.cpp:212-236 | one more sub-batch extends the rounds run and the output read back so far |
| Client.TfaccClient.RunStep | src/devices/tfacc/fastllm-tfacc.cpp:211-237 | the turn at `baseN` runs sub-batch `(baseN, min(maxN, n - baseN))` and moves the loop to `baseN + maxN` |
| Client.TfaccClient.RunLoop | src/devices/tfacc/fastllm-tfacc.cpp:211-237 | one round per sub-batch of `[0, n)`, in order; the output holds the read-back results up to `n * k * 4` and is unchanged after that |
| Client.TfaccClient.RunBatches | src/devices/tfacc/fastllm-tfacc.cpp:211-237 | as RunLoop; `n <= 0` launches no round and leaves the output as it was |
| Client.TfaccClient.RunTfaccLinearU | src/devices/tfacc/fastllm-tfacc.cpp:191-238 | registers the weight and then the bias; then runs one round per sub-batch with the op the weight selects; the output is each sub-batch's results, in place |
| Client.RanSnoc | src/devices/tfacc/fastllm-tfacc.cpp:232-236 | a round for the next sub-batch, answered by the accelerator, extends the record of the rounds run |
| Client.CarriedAfterWrite | src/devices/tfacc/fastllm-tfacc.cpp:213-230 | after the header and the body are written, the command area carries the command |
| Client.BuildRegistration | src/devices/tfacc/fastllm-tfacc.cpp:136-167 | the U8Buffer assembles exactly the registration payload |
| Client.WriteInts | src/devices/tfacc/fastllm-tfacc.cpp:141-143 | appends each dimension as a 4-byte store, in order |
| Client.WriteSection | src/devices/tfacc/fastllm-tfacc.cpp:144-168 | appends the section the element type calls for |
| Client.WritePerChannel | src/devices/tfacc/fastllm-tfacc.cpp:148-156 | appends tag, axis, `k` (min, max) pairs and the raw bytes |
| Client.WriteGrouped | src/devices/tfacc/fastllm-tfacc.cpp:157-167 | appends tag, axis, group, group count, `k * group` pairs and the raw bytes |
| Client.WriteRangePairs | src/devices/tfacc/fastllm-tfacc.cpp:152-155 | appends the first `count` ranges of the configs (none when `count <= 0`) |
| Client.BuildUnregistration | src/devices/tfacc/fastllm-tfacc.cpp:185-187 | the U8Buffer assembles exactly the unregistration payload |

## Left out

- Opening `/dev/thinkforce0` and mapping it (:55-58) are not modelled. The class is built over three fresh arrays, one per area. Because the areas are separate arrays, a write past the command area cannot reach the result area or the flags. The model instead proves that every command fits (first finding).
- The server-info handshake and its JSON parsing (:60-77) are not modelled. The partition count is a constructor parameter.
- Client.TfaccClient.constructor: requires 1 to 16 partitions. The flag area holds 16 partition slots, and a larger count would make `Launch` write past the mapping. The source reads the count with `int_value()` (:76), which gives 0 when the field is missing. Launch and Wait then touch no flag, and the abstract `Wait` would return a reply that no partition computed, so 0 is excluded.
- Client.TfaccClient.Wait: the spin until every flag is 0 (:97-109) is one abstract step. The accelerator's reply comes from `peer`, and the model does not prove that the wait ends.
- The `dmb ish` barriers (:88, :93) are not modelled. Memory ordering has no counterpart in a sequential model.
- JSON rendering by json11 (:129-134, :179-183) is modelled as fixed text around the name and the role, keys in sorted order. String escaping is not modelled, so the config is exact only for names and roles without quotes, backslashes or control characters.
- Float values are not interpreted. A float is its 4-byte bit pattern.
- `Data::GetBytes()` is the length of the tensor's `cpuData` bytes, which is all that is sent.
- The numeric DataType tags follow the order of fastllm's DataType enumeration (FLOAT32 = 0, ..., INT4_GROUP = 9). `fastllm.h` is not part of this model, and the proofs use only that the tags are distinct.
- Client.TfaccClient.Destroy: says only that the names are unregistered in some order that lists each once. It does not say that the order is `std::set`'s sorted order.
- Client.TfaccClient.UnregisterFastllmData: requires the unregistration message of a recorded name to fit an `int`. Destroy and UnregisterNext require the same. Every name that RegisterFastllmData records meets this (Registration.UnregisterFitsWhenRegistered).
- Client.TfaccClient.SendLongMessage: requires the length to be a 32-bit `int`, as the source's `int len` is. The model's chunk offset is unbounded, which is the corrected loop of the second finding.
- Client.TfaccClient.RegisterFastllmData: requires a fresh tensor's registration message to fit a C `int` (below 2^31 bytes). For 2^31 to 2^32 - 1 bytes the source throws from `resize` after recording the name (third finding, modelled by `SourceRegister`). For 4 GiB or more, the narrowed lengths either throw or cut the upload short, depending on the length mod 2^32. Neither is followed by the method. RunTfaccLinearU inherits this requirement for the weight and the bias.
- Client.TfaccClient.RunTfaccLinearU: sizes sub-batches with the corrected `FittingMaxN`, not the source's `maxN` (`SourceMaxN`, :206-208). The two sizes are equal exactly where the source's command fits the command area (FittingMaxNAgrees, FittingMaxNFits). Where the source's command overruns, the source posts fewer, larger rounds. For n = 7 Mi and m = k = 1, that is one round against the model's two.
- Client.TfaccClient.RunTfaccLinearU: requires `m > 0`, `k > 0` and, when `n > 0`, a positive sub-batch size. With `m == 0` or `k == 0` the source divides by zero. With `maxN == 0` its loop never ends.
- Client.TfaccClient.RunTfaccLinearU: the offsets `baseN * m` and `baseN * k * 4` are unbounded in the model. The source computes them as 32-bit `int` and would overflow for inputs past 2 GiB.
- Linear.ReadBack: a reply shorter than a sub-batch's results would be taken whole. That case never arises, because the result area is larger than the transfer limit.
- A tensor's `cpuData` address is modelled as its bytes and a `hasCpuData` flag. `BiasName` tests the flag as :203 does. Registration sends the bytes whatever the flag. For a null address the source copies from `nullptr`, which is undefined unless `GetBytes()` is 0.
- `output` is modelled as a byte array, and the copied 32-bit accumulator values as their bytes.

## Findings

| source | as written | input that shows it | evidently intended | confidence | as-written member | corrected member |
|---|---|---|---|---|---|---|
| src/devices/tfacc/fastllm-tfacc.cpp:206-208 | `maxN` is bounded only by `transLimit / m` and `transLimit / (k * 4)`. The 40-byte command start, the 8 bytes of ranges per row and the two names are not counted, so a full sub-batch can write past the 32 MiB command area. | n = 7 Mi, m = 1, k = 1 and empty names give maxN = 7 Mi. The command then runs to byte 66060328, over the result area and into the flag words at 63 MiB. | Every sub-batch's whole command fits the command area. | not executed | Linear.SourceMaxNOverrunsCommandArea | Linear.FittingMaxNFits |
| src/devices/tfacc/fastllm-tfacc.cpp:112 | The chunk offset `i += transLimit` is a 32-bit `int`, and it overflows after the chunk at 73 * transLimit. | len = 2^31 - 1: after the chunk at offset 2143289344, `i` wraps to -2122317824. That still passes `i < len`, so the loop goes on to copy from before the buffer. | The loop ends after the last chunk. | not executed; signed overflow is undefined behaviour in C++, and two's complement wrap-around is assumed | Protocol.SourceChunkLoopWraps | Client.TfaccClient.SendChunks |
| src/devices/tfacc/fastllm-tfacc.cpp:124-170 | The name is inserted into `registerDataNames` (:128) before the message is built. `WriteBytes(cpuData, GetBytes())` and the buffer's size both narrow the lengths to `int`, and `resize(oldLen + len)` (:49) then gets a negative size and throws. | A FLOAT32 tensor of 2^31 raw bytes with a short name and shape: `len` is -2^31, so `resize` throws `std::length_error` after the name is recorded. Nothing is sent, and every later RegisterFastllmData of that tensor returns at :124-126. RunTfaccLinearU then runs with a weight the accelerator never received. | A name is recorded only once its registration has been sent, and a message too long to send is refused with the set left unchanged. | not executed; two's complement wrap-around of the `int` sum is assumed | Client.SourceRegisterKeepsUnsentName | Client.IntendedRegister |
