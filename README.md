# openMSX (TSX branch) core, modelled in Dafny

This project models five parts of the openMSX emulator and proves
properties of each:

- **Scheduler.** It keeps the pending synchronisation points of the
  emulated devices in a binary heap ordered by time. It hands them out
  earliest first up to a time limit. A device's `executeUntil` may register
  new points while the scheduler runs.
- **TSX cassette image.** `TsxImage` walks the blocks of a TZX/TSX tape
  file and renders them as 96 kHz signed 8-bit samples. The blocks are:
  - standard, turbo and ID 4B MSX blocks, made of pulses, bits and framed
    bytes;
  - pure tones, pulse sequences and direct recordings;
  - silences and signal-level blocks;
  - blocks that are only stepped over.

  The first MSX header block it meets decides the file type (ASCII,
  binary or BASIC).
- **MSX device switch.** The I/O ports 0x40-0x4F select one of 256
  switched devices by id and forward reads and writes to it.
- **`static_vector`.** A vector with a fixed capacity, a size counter of
  the narrowest type that holds the capacity, and no bounds checks.
- **ZMBV video encoder.** It prepares keyframes and delta frames before
  compression:
  - the vector table of candidate motion vectors;
  - frame buffers with a 16-pixel black border;
  - the per-block motion search with the `possibleBlock` pre-test and the
    `compareBlock` count;
  - the XOR blocks and the vector bytes of a delta frame;
  - the raw pixels of a keyframe;
  - the frame flag byte and the keyframe header.

Where the source mutates state in place, the model does too:
- the scheduler, the image, the switch, the vector and the encoder are
  classes;
- the encoder's frame and work buffers are arrays;
- every loop is a `while` or `for` loop with invariants.

Each such method is proved against pure specification functions. Those
functions carry the properties:
- `TsxFormat.Walk` and `TsxSignal.Emit` for the converter;
- `Scheduler.Scheduled` for the dispatch order;
- `ZmbvFormat.XorFrameData`, `ZmbvFormat.VectorBytes` and
  `ZmbvFormat.Picture` for the encoder.

Modules:
- `Scheduler`;
- `TsxSignal`: sample-level signal functions;
- `TsxFormat`: the block layout and the walk;
- `TsxImage`: the class;
- `DeviceSwitch`;
- `StaticVector`;
- `ZmbvFormat`: the stream format and the specification functions;
- `ZmbvEncoder`: the class and its buffer loops.

Integer widths follow the source:
- `tstates2bytes` multiplies in `uint32_t` and wraps before dividing;
- `OUTPUT_FREQ*ms` in `writeSilence` wraps;
- `blockLen - 12` of an ID 4B block wraps below 12;
- `neededSize` is 32-bit;
- `-(-128)` on an `int8_t` level wraps.

ID 12 and ID 13 blocks pass each pulse length through `tstates2bytes`
twice, once in the block and once in `writePulse`. This is modelled as
written.

## Model

The table lists the members whose contracts state a property. The
reference functions those contracts are written against have no row of
their own. Each is listed here with the source it defines, and appears in
the table through the lemmas and methods about it:
- `Scheduler.IsHeap`: the `std::*_heap` order under the inverted
  `operator<` (src/Scheduler.hh:109-113);
- `Scheduler.Registered`: the records that dispatched devices register
  through `setSyncPoint` (src/Scheduler.hh:40-54);
- `Scheduler.Materialized`: the sync points a device's registrations
  become, one for one (src/Scheduler.hh:37-54);
- `Scheduler.Points`: the records dispatched, in dispatch order
  (src/Scheduler.hh:107);
- `Scheduler.Scheduled`: the dispatch order that `schedule` promises
  (src/Scheduler.hh:87-99);
- `TsxSignal.Negate`, `Render` and `Emit`: `writePulse` and runs of it
  (src/cassette/TsxImage.cc:141-152);
- `TsxSignal.Silence`: `writeSilence` (src/cassette/TsxImage.cc:204-210);
- `TsxSignal.TurboBits`: the bit tests of `writeTurboByte`
  (src/cassette/TsxImage.cc:236-246);
- `TsxSignal.Samples`: the sample runs of `writeBlock15`
  (src/cassette/TsxImage.cc:308-324);
- `TsxFormat.HasSignature`: the `ZXTape!` test of `convert`
  (src/cassette/TsxImage.cc:405-407);
- `TsxFormat.StartPhase`: the start level of blocks 10, 11 and 4B
  (src/cassette/TsxImage.cc:250-252);
- `TsxFormat.Play`: the effect of each `writeBlockNN` on the signal
  (src/cassette/TsxImage.cc:248-391);
- `TsxFormat.Size`: the advance `convert` adds after each block
  (src/cassette/TsxImage.cc:409-556);
- `TsxFormat.HeaderCandidate`: the file-type detection guard
  (src/cassette/TsxImage.cc:490-494);
- `DeviceSwitch.ResetCalls`: one `reset` call per device, in order
  (src/MSXDeviceSwitch.cc:77-81);
- `DeviceSwitch.RegisteredDevices`: the devices `reset` visits
  (src/MSXDeviceSwitch.cc:75-84);
- `ZmbvFormat.VectorTable`: the fill order of `createVectorTable`
  (src/video/ZMBVEncoder.cc:78-121);
- `ZmbvFormat.FormatByte`: the format codes `setupBuffers` picks
  (src/video/ZMBVEncoder.cc:163-178);
- `ZmbvFormat.FrameLength`: `bufsize` in pixels
  (src/video/ZMBVEncoder.cc:180-181);
- `ZmbvFormat.BlockOffset`: one `blockOffsets` entry
  (src/video/ZMBVEncoder.cc:196-200);
- `ZmbvFormat.NeededSize`: `neededSize()` in 32-bit arithmetic
  (src/video/ZMBVEncoder.cc:204-209);
- `ZmbvFormat.Row`: the `width` pixels of one line
  (src/video/ZMBVEncoder.cc:313);
- `ZmbvFormat.Picture` and `XorFrameData`: the keyframe pixels and the
  delta frame's XOR data that `addFullFrame` and `addXorFrame` store
  (src/video/ZMBVEncoder.cc:305-318 and 263-302).

Index helpers such as `Scheduler.Parent` (the parent slot of the heap's
implicit tree) have no row either. Neither does the getter
`Scheduler.Scheduler.GetCurrentTime` (src/Scheduler.hh:68-71): it returns
the scheduler time, and the promise that this time never decreases is
stated by `SetCurrentTime`, `Schedule` and `ScheduleHelper`.

| member | source | states |
|---|---|---|
| Scheduler.HeapFrontLeast | src/Scheduler.hh:26-27 | under the inverted `operator<`, the front of a heap is no later than any record |
| Scheduler.HeapFrontLeastAll | src/Scheduler.hh:109-113 | the front of a non-empty heap has the least time of all records |
| Scheduler.Swap | src/Scheduler.hh:109-113 | the slot exchange of `push_heap` and `pop_heap`: the two slots trade records and the multiset of records is unchanged |
| Scheduler.SiftUpStep | src/Scheduler.hh:109-113 | swapping a record with a later parent moves the only heap violation one level up |
| Scheduler.SiftDownStep | src/Scheduler.hh:109-113 | swapping a record with its earliest, earlier child moves the only violation one level down |
| Scheduler.SiftUp | src/Scheduler.hh:109-113 | restores the heap order and keeps the same records (multiset) |
| Scheduler.SiftDown | src/Scheduler.hh:109-113 | restores the heap order and keeps the same records (multiset) |
| Scheduler.HeapPush | src/Scheduler.hh:53-54 | push_back plus push_heap: a heap holding the old records plus the new one |
| Scheduler.HeapRemoveAt | src/Scheduler.hh:56-66 | removing one record from a heap leaves a heap of exactly the other records |
| Scheduler.RemovedUp | src/Scheduler.hh:56-66 | a replacement earlier than its parent breaks the order only on the edge into it |
| Scheduler.RemovedDown | src/Scheduler.hh:56-66 | a replacement no earlier than its parent breaks the order only below it |
| Scheduler.Materialize | src/Scheduler.hh:37-54 | a registration made at time `now` is ASAP or not before `now`, for the given device and userData |
| Scheduler.DispatchStep | src/Scheduler.hh:87-99 | dispatching the least pending record keeps the order properties: limit respected, non-ASAP records in time order, run times non-decreasing and never before the record's own time |
| Scheduler.PointOrderSnoc | src/Scheduler.hh:40-41 | a record due no earlier than all before it keeps the dispatched records in time order |
| Scheduler.TimeOrderSnoc | src/Scheduler.hh:87-99 | a dispatch run no earlier than all before it keeps the run times non-decreasing |
| Scheduler.DispatchOrderScheduled | src/Scheduler.hh:87-99 | when the loop stops, the dispatches satisfy what `schedule(limit)` promises |
| Scheduler.FloorKept | src/Scheduler.hh:42-43 | after a dispatch no pending non-ASAP record is earlier than the one just run, because new points are never in the past |
| Scheduler.RegisteredStep | src/Scheduler.hh:46 | one more dispatch adds exactly the registrations its device makes |
| Scheduler.DispatchStateStep | src/Scheduler.hh:87-99 | one dispatch of the earliest due record keeps the loop invariant: records accounted, order kept, floor kept |
| Scheduler.PointsSnoc | src/Scheduler.hh:107 | one more dispatch appends its record |
| Scheduler.DispatchAccounted | src/Scheduler.hh:107-113 | no sync point is lost or invented: initial plus registered equals pending plus dispatched |
| Scheduler.Scheduler.constructor | src/Scheduler.hh:104 | an empty queue at time 0 |
| Scheduler.Scheduler.SetSyncPoint | src/Scheduler.hh:37-54 | adds exactly the one record to the pending multiset, and only for an ASAP or not-past time |
| Scheduler.Scheduler.RemoveSyncPoint | src/Scheduler.hh:56-66 | removes exactly one matching record when one exists, which one unspecified, and changes nothing otherwise |
| Scheduler.Scheduler.GetNext | src/Scheduler.hh:73-80 | the current time if an ASAP point is pending, otherwise the least pending time |
| Scheduler.Scheduler.SetCurrentTime | src/Scheduler.hh:82-85 | moves the time forward to `time` |
| Scheduler.Scheduler.RegisterAll | src/Scheduler.hh:37-54 | the device's registrations join the pending records at the current time |
| Scheduler.Scheduler.DispatchFront | src/Scheduler.hh:87-99 | takes out a record of least time, moves the time up to it, logs the call and adds the device's new points |
| Scheduler.Scheduler.Schedule | src/Scheduler.hh:87-99 | nothing changes unless the front is due; otherwise every record due by `limit` is run in order, none is lost, none left is due, and the time ends at `limit`; for a `limit` not before the current time, the time never decreases and ends no later than `limit` |
| Scheduler.Scheduler.DispatchDue | src/Scheduler.hh:107 | one loop turn extends the dispatch log by one call and keeps the loop invariant |
| Scheduler.Scheduler.DispatchAll | src/Scheduler.hh:107 | dispatches until the queue is empty or its front lies after `limit`, keeping the invariant |
| Scheduler.Scheduler.ScheduleHelper | src/Scheduler.hh:107 | the slow path: all due records run in `Scheduled` order, none is lost, nothing due remains, and the time becomes `limit`, which is not before the current time, so time never decreases |
| TsxSignal.TstatesToBytes | src/cassette/TsxImage.cc:92-95 | samples for a duration: exact `t*96000/3500000` up to 44739 T-states, never above 1227 |
| TsxSignal.TstatesWrap | src/cassette/TsxImage.cc:92-95 | the 32-bit product wraps just above 44739 T-states, where the result drops from 1227 to 0 |
| TsxSignal.SilenceCount | src/cassette/TsxImage.cc:204-210 | `writeSilence` inserts 96 samples per millisecond while the product does not wrap |
| TsxSignal.RenderLength | src/cassette/TsxImage.cc:141-152 | a pulse train lasts the sum of its pulses' sample counts |
| TsxSignal.RenderConcat | src/cassette/TsxImage.cc:148-152 | two pulse trains in a row equal their concatenation, the second starting at the level the first left |
| TsxSignal.OnePulse | src/cassette/TsxImage.cc:148-152 | one pulse is `tstates2bytes(t)` copies of the current level |
| TsxSignal.LsbBitsRoundTrip | src/cassette/TsxImage.cc:190 | the mask tests `b & (1 << k)` carry the whole number |
| TsxSignal.Bits8At | src/cassette/TsxImage.cc:184-190 | entry k of a byte's bits is the test `b & (1 << k)` |
| TsxSignal.DataBitsAt | src/cassette/TsxImage.cc:182-196 | data bit i is bit 7-i when sending most significant first, bit i otherwise |
| TsxSignal.DataBitsRoundTrip | src/cassette/TsxImage.cc:182-196 | a receiver that knows the bit order recovers the byte from the eight data bits |
| TsxSignal.BitPulsesConcat | src/cassette/TsxImage.cc:174-201 | the pulses of a concatenated bit string are the concatenated pulses |
| TsxSignal.TurboBitsMsbFirst | src/cassette/TsxImage.cc:236-246 | a full turbo byte, tested with `128 >> i`, is sent most significant bit first |
| TsxSignal.DecodeKcs | src/cassette/TsxImage.cc:369-380 | the ID 4B configuration: pulse counts in 1..16, start and stop bits at most 3 |
| TsxSignal.BitcfgRoundTrip | src/cassette/TsxImage.cc:372-375 | pulse counts 1..16 survive encoding into `bitcfg` and decoding (0 meaning 16), and every `bitcfg` byte re-encodes to itself |
| TsxSignal.BytecfgRoundTrip | src/cassette/TsxImage.cc:376-380 | the framing fields survive `bytecfg` encoding and decoding, and decoding loses only the unused bit 1 |
| TsxSignal.KcsByteLayout | src/cassette/TsxImage.cc:174-201 | a sent byte is its start bits, the eight data bits in the configured order, then its stop bits |
| TsxSignal.KcsFramingBits | src/cassette/TsxImage.cc:177-179 | the start bits hold the start value and the stop bits the stop value |
| TsxSignal.KcsDataBitAt | src/cassette/TsxImage.cc:182-195 | data bit i of a sent byte follows `msb4B` |
| TsxSignal.EmitPulse | src/cassette/TsxImage.cc:148-152 | `writePulse` appends the current level for the pulse's samples, then negates the level |
| TsxSignal.EmitConcat | src/cassette/TsxImage.cc:148-152 | writing two pulse trains one after the other equals writing their concatenation |
| TsxSignal.SilenceEffect | src/cassette/TsxImage.cc:204-210 | 0 ms changes nothing; otherwise zero samples follow, and the next pulse starts high |
| TsxSignal.SamplesLength | src/cassette/TsxImage.cc:312-321 | a direct recording lasts one sample run per level |
| TsxFormat.KcsDataCount | src/cassette/TsxImage.cc:384 | the 4B data byte count is `blockLen - 12`, wrapping modulo 2^32 below 12 |
| TsxFormat.GeneralizedSkipStalls | src/cassette/TsxImage.cc:522-524 | the as-written ID 19 advance is 0 for the length 0xFFFFFFFB |
| TsxFormat.GeneralizedSkip | src/cassette/TsxImage.cc:522-524 | the corrected advance: 5 header bytes plus the declared length |
| TsxFormat.GeneralizedSkipAgrees | src/cassette/TsxImage.cc:522-524 | the corrected advance always moves, and it equals the as-written one wherever that does not wrap |
| TsxFormat.ParseAt | src/cassette/TsxImage.cc:409-556 | the block at `pos`, or Cut if it needs bytes past the end; every parsed block advances by at least one byte (ID 19 by the corrected advance), and a 4B block holds `blockLen - 12` bytes |
| TsxFormat.ParseSkip | src/cassette/TsxImage.cc:448-556 | the blocks the walk steps over give only skips or the unknown-id case |
| TsxFormat.UnknownIdSkipsOneByte | src/cassette/TsxImage.cc:549-556 | an id is stepped over one byte at a time exactly when it is unknown |
| TsxFormat.BlockAdvance | src/cassette/TsxImage.cc:409-556 | the advance for every id, read from the block's own header fields |
| TsxFormat.DataEndsBlock | src/cassette/TsxImage.cc:248-391 | the data a block plays runs up to the next block, so the advance is header plus data |
| TsxFormat.SequencePulses | src/cassette/TsxImage.cc:300-306 | an ID 13 block writes one pulse per length |
| TsxFormat.UsedBits | src/cassette/TsxImage.cc:317-318 | the used bits of the last direct-recording byte lie in 1..8 |
| TsxFormat.PhaseRules | src/cassette/TsxImage.cc:248-381 | blocks 10 and 11 start low and 4B high unless a 2B block set the level; all three clear that flag; 2B sets it; other blocks leave it alone; only an ID 4B block changes the pulse configuration, to the one its own fields encode |
| TsxFormat.Framed | src/cassette/TsxImage.cc:264-265 | a block's pulses, then its pause, append exactly those samples |
| TsxFormat.PlayAppends | src/cassette/TsxImage.cc:409-556 | every block only appends to the signal |
| TsxFormat.FileTypeOf | src/cassette/TsxImage.cc:497-505 | ASCII, binary or BASIC exactly when the first ten bytes are all 0xEA, 0xD0 or 0xD3 |
| TsxFormat.Walk | src/cassette/TsxImage.cc:409-557 | walking the blocks, with the corrected ID 19 advance, ends in a conversion or a truncation, never in a signature failure; a file type already decided is kept and a raised warning stays raised |
| TsxFormat.WalkStep | src/cassette/TsxImage.cc:409-557 | a block cut short ends the walk as truncated; any other block is played, may fix the file type, and the walk resumes after it |
| TsxFormat.Convert | src/cassette/TsxImage.cc:406-409 | a file is rejected exactly when it lacks the `ZXTape!` signature |
| TsxFormat.FirstCandidateDecides | src/cassette/TsxImage.cc:491-508 | the first header candidate's first ten data bytes decide the file type |
| TsxImage.TsxImage.constructor | src/cassette/TsxImage.cc:101-105 | an empty signal of unknown file type |
| TsxImage.TsxImage.GetSampleAt | src/cassette/TsxImage.cc:107-112 | the sample at `pos` scaled to 16 bits, silence past the end |
| TsxImage.TsxImage.WriteSample | src/cassette/TsxImage.cc:141-146 | appends the carried and new samples at `value` and uses up the carry |
| TsxImage.TsxImage.WritePulse | src/cassette/TsxImage.cc:148-152 | the signal after one pulse |
| TsxImage.TsxImage.Write0 | src/cassette/TsxImage.cc:154-158 | `numZeroPulses4B` pulses of `pulseZero4B` |
| TsxImage.TsxImage.Write1 | src/cassette/TsxImage.cc:159-163 | `numOnePulses4B` pulses of `pulseOne4B` |
| TsxImage.TsxImage.WriteHeader4B | src/cassette/TsxImage.cc:166-171 | `s` pilot pulses, none for a negative count |
| TsxImage.TsxImage.WriteKcsBit | src/cassette/TsxImage.cc:179 | one more bit of a byte, written as the configured pulses |
| TsxImage.TsxImage.WriteByte4B | src/cassette/TsxImage.cc:174-201 | the pulses of a framed byte under the current configuration |
| TsxImage.TsxImage.WriteStartBits4B | src/cassette/TsxImage.cc:177-180 | the start bits open the byte's bit string |
| TsxImage.TsxImage.WriteStopBits4B | src/cassette/TsxImage.cc:197-200 | the stop bits complete the byte's pulses |
| TsxImage.TsxImage.WriteDataBits4B | src/cassette/TsxImage.cc:181-196 | the eight data bits follow the start bits |
| TsxImage.TsxImage.WriteDataBit4B | src/cassette/TsxImage.cc:183-195 | data bit i in the configured order |
| TsxImage.TsxImage.WriteFraming | src/cassette/TsxImage.cc:177-180 | `count` start or stop bits of the given value |
| TsxImage.TsxImage.WriteSilence | src/cassette/TsxImage.cc:204-210 | the signal after a silence |
| TsxImage.TsxImage.WriteTurboPilot | src/cassette/TsxImage.cc:212-215 | one pilot pulse |
| TsxImage.TsxImage.WriteTwo | src/cassette/TsxImage.cc:217-233 | two pulses of the given lengths |
| TsxImage.TsxImage.WriteTurboSync | src/cassette/TsxImage.cc:217-221 | the two sync pulses |
| TsxImage.TsxImage.WriteTurbo0 | src/cassette/TsxImage.cc:223-227 | a 0 bit: two equal pulses |
| TsxImage.TsxImage.WriteTurbo1 | src/cassette/TsxImage.cc:229-233 | a 1 bit: two equal pulses |
| TsxImage.TsxImage.WriteTurboBit | src/cassette/TsxImage.cc:240-244 | one more turbo bit, written as its two pulses |
| TsxImage.TsxImage.WriteTurboByte | src/cassette/TsxImage.cc:236-246 | the first `bits` bits, most significant first, each as two pulses |
| TsxImage.TsxImage.WriteTurboData | src/cassette/TsxImage.cc:259-263 | the turbo pulses of every data byte in order |
| TsxImage.TsxImage.BeginPhase | src/cassette/TsxImage.cc:250-252 | the block's fixed start level unless a 2B block chose one; the flag is cleared |
| TsxImage.TsxImage.WriteTurboPilots | src/cassette/TsxImage.cc:254-256 | `count` pilot pulses |
| TsxImage.TsxImage.WriteBlock10 | src/cassette/TsxImage.cc:248-267 | an ID 10 block's signal, and its length |
| TsxImage.TsxImage.WriteBlock11 | src/cassette/TsxImage.cc:269-288 | an ID 11 block's signal, and its length |
| TsxImage.TsxImage.WriteBlock12 | src/cassette/TsxImage.cc:290-298 | an ID 12 block's signal, and its length |
| TsxImage.TsxImage.WriteBlock13 | src/cassette/TsxImage.cc:300-306 | an ID 13 block's signal, and its length |
| TsxImage.TsxImage.WriteBits15 | src/cassette/TsxImage.cc:313-315 | one sample run per bit, from the most significant down |
| TsxImage.TsxImage.WriteFullBytes | src/cassette/TsxImage.cc:312-316 | every bit of the first `count` bytes, byte after byte |
| TsxImage.TsxImage.WriteFullByte | src/cassette/TsxImage.cc:313-315 | one more whole byte extends the samples by its eight bits |
| TsxImage.TsxImage.WriteDirect | src/cassette/TsxImage.cc:308-321 | all bits of every byte but the last, then the last byte's used bits |
| TsxImage.TsxImage.WriteBlock15 | src/cassette/TsxImage.cc:308-324 | an ID 15 block's signal, and its length |
| TsxImage.TsxImage.WriteBlock4B | src/cassette/TsxImage.cc:363-391 | an ID 4B block's signal, its configuration, and its length |
| TsxImage.TsxImage.SetKcs4B | src/cassette/TsxImage.cc:369-380 | the configuration becomes the one the block encodes, and nothing else changes |
| TsxImage.TsxImage.SetBitcfg4B | src/cassette/TsxImage.cc:372-375 | the pulse counts from the `bitcfg` nibbles, 0 meaning 16 |
| TsxImage.TsxImage.SetBytecfg4B | src/cassette/TsxImage.cc:376-380 | the framing fields from the bits of `bytecfg` |
| TsxImage.TsxImage.WriteKcsData | src/cassette/TsxImage.cc:384-388 | the framed pulses of every data byte in order |
| TsxImage.TsxImage.PlayBlock | src/cassette/TsxImage.cc:410-556 | any block's signal and advance; the file type is untouched |
| TsxImage.TsxImage.ConvertStep | src/cassette/TsxImage.cc:410-556 | one walk step: cut exactly when the block runs past the end; otherwise the block is played and the detection and warning are updated |
| TsxImage.TsxImage.WalkTurn | src/cassette/TsxImage.cc:409-557 | one loop turn moves forward and leaves the rest of the walk's outcome unchanged |
| TsxImage.TsxImage.Convert | src/cassette/TsxImage.cc:393-566 | the outcome of the walk: not a TSX file exactly when the signature is missing, overrun exactly when a block is cut, otherwise the signal, file type and warning of the walk |
| TsxImage.SamplesConcat | src/cassette/TsxImage.cc:312-321 | the sample runs of two level lists in a row equal those of their concatenation |
| DeviceSwitch.LowNibble | src/MSXDeviceSwitch.cc:108 | `port & 0x0F`: below 16 and congruent to the port modulo 16 |
| DeviceSwitch.RegisteredDevicesExact | src/MSXDeviceSwitch.cc:75-84 | reset visits the device of every occupied slot, nothing else, and makes one call per occupied slot |
| DeviceSwitch.RegisteredAppend | src/MSXDeviceSwitch.cc:77-81 | slots are visited in order |
| DeviceSwitch.RegisterThenUnregister | src/MSXDeviceSwitch.cc:12-21 | creating a switched device and destroying it leaves the switch's table as it was |
| DeviceSwitch.MSXDeviceSwitch.constructor | src/MSXDeviceSwitch.cc:30-45 | all 256 slots empty, id 0 selected |
| DeviceSwitch.MSXDeviceSwitch.Destroy | src/MSXDeviceSwitch.cc:47-58 | only with every slot empty; releases the ports 0x40-0x4F |
| DeviceSwitch.MSXDeviceSwitch.RegisterDevice | src/MSXDeviceSwitch.cc:61-66 | fills exactly the free slot `id` |
| DeviceSwitch.MSXDeviceSwitch.UnregisterDevice | src/MSXDeviceSwitch.cc:68-72 | empties exactly the occupied slot `id` |
| DeviceSwitch.MSXDeviceSwitch.Reset | src/MSXDeviceSwitch.cc:75-84 | resets the registered devices in slot order, then selects 0 |
| DeviceSwitch.MSXDeviceSwitch.ReadIO | src/MSXDeviceSwitch.cc:86-95 | the selected device's answer to the unmasked port, or 0xFF with no call when the slot is empty |
| DeviceSwitch.MSXDeviceSwitch.PeekIO | src/MSXDeviceSwitch.cc:97-104 | the selected device's peek, or 0xFF |
| DeviceSwitch.MSXDeviceSwitch.WriteIO | src/MSXDeviceSwitch.cc:106-118 | low nibble 0 selects `value`; otherwise a write to the selected device with the masked port, or nothing |
| DeviceSwitch.MSXSwitchedDevice.constructor | src/MSXDeviceSwitch.cc:12-16 | registers itself under its id in the switch |
| DeviceSwitch.MSXSwitchedDevice.Destroy | src/MSXDeviceSwitch.cc:18-21 | unregisters its id and changes nothing else |
| StaticVector.SizeTypeBits | src/utils/static_vector.hh:32-36 | the narrowest of 8, 16, 32 and 64 bits whose maximum reaches the capacity |
| StaticVector.StaticVector.Empty | src/utils/static_vector.hh:39 | no elements, and every storage slot holds the value-initialised `T{}` of the `data = {}` member initialiser (the `zero` parameter) |
| StaticVector.StaticVector.FromList | src/utils/static_vector.hh:41-45 | the list's elements, for a list that fits; the slots past it hold the value-initialised `T{}` |
| StaticVector.StaticVector.FromRange | src/utils/static_vector.hh:47-52 | the range's elements in order, for a range that fits; the slots past it hold the value-initialised `T{}` |
| StaticVector.StaticVector.Size | src/utils/static_vector.hh:57 | the element count, never above the capacity |
| StaticVector.StaticVector.IsEmpty | src/utils/static_vector.hh:58 | true exactly when there are no elements |
| StaticVector.StaticVector.Get | src/utils/static_vector.hh:60-61 | element `index` for an index in use; any index below the capacity is accepted |
| StaticVector.StaticVector.Set | src/utils/static_vector.hh:60 | replaces exactly the storage slot `index`, size unchanged |
| StaticVector.StaticVector.PushBack | src/utils/static_vector.hh:63 | appends one element, for a vector below capacity |
| StaticVector.StaticVector.Clear | src/utils/static_vector.hh:65 | no elements, storage untouched |
| StaticVector.StaticVector.AsSpan | src/utils/static_vector.hh:67-68 | the first `sz` storage slots |
| ZmbvFormat.FormatOf | src/video/ZMBVEncoder.cc:163-178 | 15, 16 and 32 bpp map one for one to the three formats |
| ZmbvFormat.PixelSizeOf | src/video/ZMBVEncoder.cc:163-175 | two bytes per pixel for 15/16 bpp, four for 32 bpp |
| ZmbvFormat.KeyframeHeader | src/video/ZMBVEncoder.cc:373-381 | version 0.1, zlib, the format code, 16x16 blocks |
| ZmbvFormat.PixelBEtoLE16 | src/video/ZMBVEncoder.cc:67-70 | swaps the two bytes |
| ZmbvFormat.PixelBEtoLE32 | src/video/ZMBVEncoder.cc:72-76 | reverses the four bytes |
| ZmbvFormat.PixelBEtoLE16Involution | src/video/ZMBVEncoder.cc:67-70 | swapping twice is the identity |
| ZmbvFormat.PixelBEtoLE32Involution | src/video/ZMBVEncoder.cc:72-76 | reversing twice is the identity |
| ZmbvFormat.DecodeEncode | src/video/ZMBVEncoder.cc:254 | a pixel stored little-endian reads back as itself |
| ZmbvFormat.XorRecovers | src/video/ZMBVEncoder.cc:250 | the XOR of two pixels fits the pixel type, and XOR with the old pixel gives the new one |
| ZmbvFormat.VectorAtInFamily | src/video/ZMBVEncoder.cc:78-119 | every table slot holds a vector of the family |
| ZmbvFormat.VectorAtInjective | src/video/ZMBVEncoder.cc:78-119 | no two slots hold the same vector |
| ZmbvFormat.IndexOfRoundTrip | src/video/ZMBVEncoder.cc:78-119 | every vector of the family is in the slot its index names |
| ZmbvFormat.VectorTableCount | src/video/ZMBVEncoder.cc:49-52 | `VECTOR_TAB_SIZE` is 353, the number of entries written |
| ZmbvFormat.VectorTableContents | src/video/ZMBVEncoder.cc:78-120 | the table holds the whole family, each member once |
| ZmbvFormat.AxisEntry | src/video/ZMBVEncoder.cc:86-104 | the entries the axis loop writes for magnitude m |
| ZmbvFormat.RestEntry | src/video/ZMBVEncoder.cc:106-119 | the entries the pair loop writes for (x, y) |
| ZmbvFormat.VectorByte | src/video/ZMBVEncoder.cc:295-298 | the signed byte `component << 1`, plus 1 when flagged |
| ZmbvFormat.VectorByteRoundTrip | src/video/ZMBVEncoder.cc:295-298 | an arithmetic shift right recovers the component, and bit 0 is the flag |
| ZmbvFormat.SetLowBit | src/video/ZMBVEncoder.cc:298 | `|= 1` on the shifted byte sets the flag |
| ZmbvFormat.NeededSizeCovers | src/video/ZMBVEncoder.cc:204-209 | without wrap-around, the output buffer holds the flag byte, the header and a raw frame |
| ZmbvFormat.BlockInFrame | src/video/ZMBVEncoder.cc:180-200 | every block, moved by any table vector, lies inside the frame buffer |
| ZmbvFormat.MovedBlockInFrame | src/video/ZMBVEncoder.cc:180-200 | the same for any vector of at most 16 in each direction |
| ZmbvFormat.DeltaRoomUpTo8192 | src/video/ZMBVEncoder.cc:181 | the work buffer of `bufsize` bytes holds a delta frame with every block changed, for widths up to 8192 |
| ZmbvFormat.AlignedWorkUsed | src/video/ZMBVEncoder.cc:269 | the first multiple of 4 at or after the vector bytes |
| ZmbvFormat.MaskRoundsDown | src/video/ZMBVEncoder.cc:269 | `& ~3` rounds down to a multiple of 4 |
| ZmbvFormat.RowDiff | src/video/ZMBVEncoder.cc:233-239 | a row count is at most the number of pixels compared |
| ZmbvFormat.BlockDiff | src/video/ZMBVEncoder.cc:233-239 | a block count is at most rows times columns |
| ZmbvFormat.CellsInBlock | src/video/ZMBVEncoder.cc:211-241 | every pixel that either comparison reads lies inside the buffer |
| ZmbvFormat.RowDiffZero | src/video/ZMBVEncoder.cc:233-239 | a row count is zero exactly when the compared pixels agree |
| ZmbvFormat.BlockDiffZero | src/video/ZMBVEncoder.cc:233-239 | a block count is zero exactly when the compared pixels agree |
| ZmbvFormat.BlockDeltaAt | src/video/ZMBVEncoder.cc:248-256 | delta pixel (x, y) is new XOR old at that place |
| ZmbvFormat.EncodeAllLength | src/video/ZMBVEncoder.cc:254-255 | a run of pixels takes `size` bytes each |
| ZmbvFormat.EncodeAllPrefix | src/video/ZMBVEncoder.cc:254-255 | the bytes of a prefix of a run are a prefix of the run's bytes |
| ZmbvFormat.EncodeAllChunk | src/video/ZMBVEncoder.cc:254-255 | pixel k's bytes lie at `k * size` |
| ZmbvFormat.XorBlockRecovers | src/video/ZMBVEncoder.cc:243-260 | a decoder XORs each stored delta with the old block's pixel and gets the new block back |
| ZmbvFormat.CompareDiff | src/video/ZMBVEncoder.cc:227-241 | `compareBlock` counts at most 256 pixels |
| ZmbvFormat.SampleDiff | src/video/ZMBVEncoder.cc:211-225 | `possibleBlock` counts at most 16 pixels |
| ZmbvFormat.MovedInside | src/video/ZMBVEncoder.cc:215 | a movable block moved by a table vector stays inside |
| ZmbvFormat.OffsetMovable | src/video/ZMBVEncoder.cc:195-200 | every `blockOffsets` entry is movable |
| ZmbvFormat.GoodChoicesSnoc | src/video/ZMBVEncoder.cc:273-301 | one more good choice keeps every choice good |
| ZmbvFormat.BlockData | src/video/ZMBVEncoder.cc:297-300 | a block has XOR data exactly when it changed, and that data is one block of pixels |
| ZmbvFormat.BlockDataChanged | src/video/ZMBVEncoder.cc:297-300 | a changed block's data is its XOR block against the moved old block |
| ZmbvFormat.XorFramePrefix | src/video/ZMBVEncoder.cc:273-301 | the data of the first b blocks is a prefix of the frame's data |
| ZmbvFormat.XorFrameSplit | src/video/ZMBVEncoder.cc:273-301 | block b's XOR data follows that of the changed blocks before it |
| ZmbvFormat.XorFrameSnoc | src/video/ZMBVEncoder.cc:273-301 | one block more appends its data |
| ZmbvFormat.XorFrameLength | src/video/ZMBVEncoder.cc:273-301 | the XOR data is one block per changed block, at most one per block |
| ZmbvFormat.VectorBytes | src/video/ZMBVEncoder.cc:295-296 | two vector bytes per block |
| ZmbvFormat.VectorBytesSnoc | src/video/ZMBVEncoder.cc:295-298 | one block more appends its two bytes |
| ZmbvFormat.VectorBytesAt | src/video/ZMBVEncoder.cc:295-298 | bytes 2b and 2b+1 hold block b's vector, flagged when it changed |
| ZmbvFormat.VectorBytesDecode | src/video/ZMBVEncoder.cc:295-298 | a decoder reads back each block's vector and whether an XOR block follows |
| ZmbvFormat.DeltaLayoutParts | src/video/ZMBVEncoder.cc:265-269 | where the vectors, the untouched alignment gap and the XOR data lie in the work buffer |
| ZmbvFormat.DeltaLayoutEmpty | src/video/ZMBVEncoder.cc:265-269 | before any block the buffer is as it was |
| ZmbvFormat.DeltaLayoutVector | src/video/ZMBVEncoder.cc:295-296 | writing two vector bytes extends the vectors |
| ZmbvFormat.DeltaLayoutData | src/video/ZMBVEncoder.cc:299 | appending XOR data extends the data |
| ZmbvFormat.DeltaLayoutStored | src/video/ZMBVEncoder.cc:254-255 | storing data at the fill level extends the data |
| ZmbvFormat.RoomForIs | src/video/ZMBVEncoder.cc:255 | room for `count` XOR blocks of `size`-byte pixels |
| ZmbvFormat.DeltaProgressStart | src/video/ZMBVEncoder.cc:265-273 | the loop invariant of `addXorFrame` holds before the first block |
| ZmbvFormat.DeltaProgressStep | src/video/ZMBVEncoder.cc:273-301 | one block keeps the loop invariant |
| ZmbvFormat.PictureLength | src/video/ZMBVEncoder.cc:309-317 | the picture has `width` pixels per row |
| ZmbvFormat.PictureAt | src/video/ZMBVEncoder.cc:307-317 | picture pixel (x, y) is the frame pixel at `base + y*pitch + x` |
| ZmbvFormat.KeyframeRecovers | src/video/ZMBVEncoder.cc:304-318 | a keyframe decodes pixel by pixel to its picture |
| ZmbvFormat.PixelDecodes | src/video/ZMBVEncoder.cc:254 | each pixel of a stored run decodes to itself |
| ZmbvFormat.Splice | src/video/ZMBVEncoder.cc:391 | `memcpy` of a line: the line at `at`, every other pixel kept |
| ZmbvFormat.Paste | src/video/ZMBVEncoder.cc:388-393 | the copy loop leaves the buffer length unchanged |
| ZmbvFormat.PictureLastRow | src/video/ZMBVEncoder.cc:309-317 | one more row appends that row |
| ZmbvFormat.PictureRowReady | src/video/ZMBVEncoder.cc:309-317 | row y lies inside the frame, holds the frame's pixels and fits in the work buffer |
| ZmbvFormat.PictureRoom | src/video/ZMBVEncoder.cc:316 | room for the whole picture is room for its first rows |
| ZmbvFormat.PictureSame | src/video/ZMBVEncoder.cc:307-317 | buffers that agree below a bound have the same rows below it |
| ZmbvFormat.PictureOfPaste | src/video/ZMBVEncoder.cc:385-393 | after the copy loop the frame's picture is exactly the source lines |
| ZmbvFormat.PastedBefore | src/video/ZMBVEncoder.cc:390-393 | copying a line leaves the rows before it untouched |
| ZmbvFormat.SplicedRow | src/video/ZMBVEncoder.cc:391 | the row where a line was copied reads back as the line |
| ZmbvFormat.PasteKeeps | src/video/ZMBVEncoder.cc:385-393 | pixels no line covers keep their value |
| ZmbvFormat.PasteFits | src/video/ZMBVEncoder.cc:385-393 | copying in lines of fitting pixels keeps every pixel fitting |
| ZmbvFormat.RowInFrame | src/video/ZMBVEncoder.cc:388-389 | every picture row lies inside the frame buffer, after the border |
| ZmbvFormat.LinesBelow | src/video/ZMBVEncoder.cc:390-393 | all lines fit when the last one does |
| ZmbvFormat.PictureInFrame | src/video/ZMBVEncoder.cc:181 | the picture is no larger than a frame buffer |
| ZmbvEncoder.CreateVectorTable | src/video/ZMBVEncoder.cc:78-121 | the table filled in place: centre, eight axis and diagonal vectors per magnitude, four sign variants per pair |
| ZmbvEncoder.WriteAxisEntries | src/video/ZMBVEncoder.cc:87-103 | the eight entries for magnitude i, earlier entries kept |
| ZmbvEncoder.WriteRestEntries | src/video/ZMBVEncoder.cc:109-117 | the four entries for (x, y), earlier entries kept |
| ZmbvEncoder.GeometryRoom | src/video/ZMBVEncoder.cc:180-201 | the geometry leaves room for a delta frame and a keyframe, and puts the picture inside the frame |
| ZmbvEncoder.BuildBlockOffsets | src/video/ZMBVEncoder.cc:191-201 | one offset per block, row by row, each movable by any vector |
| ZmbvEncoder.CountBlock | src/video/ZMBVEncoder.cc:211-241 | the pixel loops count the differing pixels |
| ZmbvEncoder.StorePixel | src/video/ZMBVEncoder.cc:254 | a pixel store writes its little-endian bytes and nothing else |
| ZmbvEncoder.AppendPixel | src/video/ZMBVEncoder.cc:254-255 | one more pixel of a run stored after those before |
| ZmbvEncoder.StoreXorRow | src/video/ZMBVEncoder.cc:248-258 | row y of the delta block stored after the rows before it |
| ZmbvEncoder.StoreXorPixel | src/video/ZMBVEncoder.cc:249-256 | delta pixel (x, y) stored after the pixels before it |
| ZmbvEncoder.StoreXorBlock | src/video/ZMBVEncoder.cc:243-260 | the 256 delta pixels stored from `at`, the rest of the buffer kept |
| ZmbvEncoder.WriteBlockVector | src/video/ZMBVEncoder.cc:295-298 | block b's two vector bytes, flagged when it changed |
| ZmbvEncoder.PutBlockVector | src/video/ZMBVEncoder.cc:295-298 | the vector bytes extend the delta layout |
| ZmbvEncoder.AppendXorBlock | src/video/ZMBVEncoder.cc:297-300 | a changed block's XOR data extends the delta layout |
| ZmbvEncoder.StoreFullRow | src/video/ZMBVEncoder.cc:313 | one picture line stored after the lines before it |
| ZmbvEncoder.StoreRowPixel | src/video/ZMBVEncoder.cc:313 | one pixel of a line stored after those before it |
| ZmbvEncoder.StorePicture | src/video/ZMBVEncoder.cc:304-318 | the picture stored line by line, the rest of the buffer kept |
| ZmbvEncoder.StorePictureRow | src/video/ZMBVEncoder.cc:309-317 | one pass of the line loop |
| ZmbvEncoder.CopyLine | src/video/ZMBVEncoder.cc:391 | one `memcpy` of a line into a frame |
| ZmbvEncoder.PasteLines | src/video/ZMBVEncoder.cc:388-393 | the copy loop of `compressFrame` |
| ZmbvEncoder.NewFrame | src/video/ZMBVEncoder.cc:183-186 | a cleared frame buffer |
| ZmbvEncoder.NewGeometry | src/video/ZMBVEncoder.cc:180-201 | the block offsets and the room they leave |
| ZmbvEncoder.NewVectorTable | src/video/ZMBVEncoder.cc:78-122 | the vector table, all of whose entries are in the family |
| ZmbvEncoder.Encoder.constructor | src/video/ZMBVEncoder.cc:125-130 | `setupBuffers` and `createVectorTable`: the format, the pitch, cleared frames, one offset per block, the table and `neededSize` |
| ZmbvEncoder.Encoder.CompareBlock | src/video/ZMBVEncoder.cc:227-241 | the number of pixels that differ between the new block and the moved old block |
| ZmbvEncoder.Encoder.PossibleBlock | src/video/ZMBVEncoder.cc:211-225 | the same count over every fourth row and column |
| ZmbvEncoder.Encoder.ChooseVector | src/video/ZMBVEncoder.cc:274-294 | the search yields a good choice: the previous vector unless a table vector passing the pre-test is strictly better; no worse than the previous one; kept when already good |
| ZmbvEncoder.Encoder.AddXorBlock | src/video/ZMBVEncoder.cc:243-260 | appends the block's 256 XOR pixels at `workUsed` |
| ZmbvEncoder.Encoder.AddBlockDelta | src/video/ZMBVEncoder.cc:273-301 | one block: a good choice, its vector bytes and, if changed, its XOR block |
| ZmbvEncoder.Encoder.AddXorFrame | src/video/ZMBVEncoder.cc:262-302 | a delta frame: good choices for every block, their vector bytes, then from the 4-byte boundary the XOR blocks of the changed blocks |
| ZmbvEncoder.Encoder.AddFullFrame | src/video/ZMBVEncoder.cc:304-318 | a keyframe: the picture's pixels stored from `workUsed` |
| ZmbvEncoder.Encoder.CopyLines | src/video/ZMBVEncoder.cc:385-393 | the source lines copied into the new frame inside the border |
| ZmbvEncoder.Encoder.CompressFrame | src/video/ZMBVEncoder.cc:360-420 | frames swapped, flag byte and header, the picture is the source lines, and the work buffer holds the keyframe or the delta frame |
| ZmbvEncoder.Encoder.WriteFrameHeader | src/video/ZMBVEncoder.cc:367-383 | the flag byte, and for a keyframe the 6-byte header; 7 or 1 bytes |
| ZmbvEncoder.Encoder.FillWork | src/video/ZMBVEncoder.cc:395-420 | the work buffer from its start: the keyframe or the delta frame |

## Left out

- File access, `mmap`, the SHA-1 sum and every `CliComm` message are not modelled. This covers the texts of blocks 30 and 32 and the per-block warnings. `convert` takes the file as a byte sequence.
- `EmuTime` is not modelled. `getSampleAt` takes the sample position directly, and `getEndTime` and `getFrequency` are left out.
- `fillBuffer` is left out. Its float sample buffer is host audio output.
- The `ULTRA_SPEED` branches are left out. The constant is false, so only the block's own values are modelled.
- The float `acumBytes` is a natural number. Only whole sample counts are ever added to it, and each write uses it up.
- A block that reads past the end of the file is undefined behaviour in the source. When the header, or the data a block plays, runs past the end, the model stops with an overrun outcome instead (`Cut`). The payload of a skipped block (the text of ID 30 and the entries of ID 32 among them) is not bounds-checked: the walk adds its declared length and, past the end, stops as the source's `pos < size` loop does.
- An ID 15 block with length 0 would underflow `b->len - 1`. It is treated as cut.
- The write-back of the clamped `lastByte` into the file buffer is left out. Only the clamped value is used.
- TsxFormat.ParseAt, TsxFormat.Walk, TsxImage.TsxImage.Convert: the ID 19 advance is the corrected `GeneralizedSkip`, 5 plus the declared length without wrap-around. The source's 32-bit advance (see Findings) stalls for length 0xFFFFFFFB and moves only 1 to 4 bytes for lengths 0xFFFFFFFC to 0xFFFFFFFF. That non-terminating walk and the re-reading of the length bytes as block ids are not modelled, so the walk always ends.
- TsxFormat.Size: the ID 4B and ID 35 advances are the 32-bit length plus 5 and plus 21 without wrap-around. The source wraps them like the ID 19 advance (see Findings), for lengths within 21 of 2^32.
- TsxImage.TsxImage.constructor: the starting level and phase flag are member initialisers in `TsxImage.hh`. That file is not part of this model, so they are constructor parameters.
- The MSX and SVI `bitcfg`/`bytecfg` constants of the file-type detection are also in `TsxImage.hh`. They are a `KcsIds` parameter.
- Past the eighth bit of a turbo byte, `128 >> i` is 0, so those bits send 0. The model keeps that for every bit, although a shift by 32 or more is undefined in the source. The source only writes 8-bit turbo bytes.
- `Scheduler.cc` is not part of this model. The scheduler's operation bodies follow the contracts the header documents, on a `std::*_heap` vector ordered by the inverted `operator<`.
- The scheduler's semaphore is left out: the model is single-threaded.
- `ASAP` is time 0.
- A device's `executeUntil` is modelled by a script of registrations, one per dispatch. Any other effect of it is left out.
- Scheduler.Scheduler.Schedule: requires a non-empty queue. The source assumes the same (its own comment says so).
- Scheduler.Scheduler.Schedule, Scheduler.Scheduler.ScheduleHelper: require `limit` not to be before the current time. Only the CPU calls them, as with `setCurrentTime`, and the scheduler's time never goes backwards. The source does not check this.
- MSXSwitchedDevice::reset does nothing and is not modelled.
- The device switch's I/O port registration with the CPU interface is modelled as two ghost flag arrays.
- The devices' `readIO`, `peekIO` and `writeIO` are a parameter function and a call log.
- `T{}` is not computable for an arbitrary `T`, so the constructors take the value-initialised element as a parameter `zero`.
- StaticVector.StaticVector.Get: the source's `operator[]` returns a reference. Writes through it are `Set`. The const and non-const overloads are one member.
- The size counter of `static_vector` is a natural number, together with `SizeTypeBits` for its width. It never exceeds the capacity, so it does not wrap.
- The zlib stream is left out: `deflateInit`, `deflateReset` and `deflate`. `CompressFrame` stops where the compressed data would begin and returns `writeDone`. The total written size depends on zlib.
- `getScaledLine` and `FrameSource` are outside the core. `CompressFrame` takes the frame's lines as input.
- ZmbvEncoder.Encoder.constructor: the vector table is kept in fill order. The source then sorts it with `std::sort` by the floating-point `CodecVector::cost`, which is not modelled. The search contract, `GoodChoice`, holds for any order of the table.
- ZmbvEncoder.Encoder.constructor: requires the 32-bit buffer sizes not to wrap. It also requires the work buffer to hold a delta frame in which every block changed, which `DeltaRoomUpTo8192` proves for every width up to 8192. The source assumes both without checking.
- The big-endian host path (`OPENMSX_BIGENDIAN`, `lineBEtoLE`) is not modelled: the stores are little-endian. `pixelBEtoLE` is modelled and its involution proved.
- Frame buffers are arrays of pixels rather than bytes reinterpreted as `P*`.
- The encoder's destructor is left out.

## Findings

| source | as written | input that shows it | evidently intended | confidence | as-written member | corrected member |
|---|---|---|---|---|---|---|
| src/cassette/TsxImage.cc:524 | the ID 19 advance `*(uint32_t*)&buf[pos+1] + 5` is computed in 32-bit unsigned arithmetic | an ID 19 block whose length field is 0xFFFFFFFB: the advance wraps to 0, so `convert` reads the same block forever | advance by the 5 header bytes plus the declared length | not executed | TsxFormat.GeneralizedSkipStalls | TsxFormat.GeneralizedSkipAgrees |
