/*
 * The TZX 1.20 container as read by `TsxImage::convert` in
 * src/cassette/TsxImage.cc: the file header, the block layouts (with the
 * MSX Kansas City Standard block ID 4B), the signal each block produces and
 * the walk over consecutive blocks, including the first-file type detection.
 */
module TsxFormat {
  import opened TsxSignal

  const IdStandard: Byte := 0x10
  const IdTurbo: Byte := 0x11
  const IdPureTone: Byte := 0x12
  const IdPulseSequence: Byte := 0x13
  const IdPureData: Byte := 0x14
  const IdDirectRecording: Byte := 0x15
  const IdGeneralized: Byte := 0x19
  const IdSilence: Byte := 0x20
  const IdGroupStart: Byte := 0x21
  const IdGroupEnd: Byte := 0x22
  const IdJump: Byte := 0x23
  const IdLoopStart: Byte := 0x24
  const IdLoopEnd: Byte := 0x25
  const IdCallSequence: Byte := 0x26
  const IdReturnSequence: Byte := 0x27
  const IdSignalLevel: Byte := 0x2B
  const IdText: Byte := 0x30
  const IdMessage: Byte := 0x31
  const IdArchiveInfo: Byte := 0x32
  const IdCustomInfo: Byte := 0x35
  const IdMsxKcs: Byte := 0x4B
  const IdGlue: Byte := 0x5A

  /** The 8 signature bytes "ZXTape!" and 0x1A; two version bytes follow. */
  const TsxSignature: seq<Byte> := [0x5A, 0x58, 0x54, 0x61, 0x70, 0x65, 0x21, 0x1A]
  /** Signature and version: the first block starts here. */
  const FirstBlock: nat := 10

  predicate HasSignature(buf: seq<Byte>)
  {
    |buf| >= 8 && buf[..8] == TsxSignature
  }

  // ----- Little-endian fields ----------------------------------------------

  function U16At(buf: seq<Byte>, p: nat): U16
    requires p + 2 <= |buf|
  {
    buf[p] as int + 0x100 * buf[p + 1] as int
  }

  function U24At(buf: seq<Byte>, p: nat): nat
    requires p + 3 <= |buf|
  {
    U16At(buf, p) as int + 0x1_0000 * buf[p + 2] as int
  }

  function U32At(buf: seq<Byte>, p: nat): U32
    requires p + 4 <= |buf|
  {
    U16At(buf, p) as int + 0x1_0000 * U16At(buf, p + 2) as int
  }

  // ----- Blocks --------------------------------------------------------------

  /** A parsed block, with the fields the converter uses. */
  datatype Block =
    | Standard(pause: U16, data: seq<Byte>)                                   // ID 10
    | Turbo(pilot: U16, sync1: U16, sync2: U16, zero: U16, one: U16,
            pilotLen: U16, pause: U16, data: seq<Byte>)                       // ID 11
    | PureTone(len: U16, pulses: U16)                                         // ID 12
    | PulseSequence(lens: seq<U16>)                                           // ID 13
    | DirectRecording(bitTstates: U16, pause: U16, lastByte: Byte,
                      samples: seq<Byte>)                                     // ID 15
    | Silent(pause: U16)                                                      // ID 20
    | SignalLevel(level: Byte)                                                // ID 2B
    | MsxKcs(blockLen: U32, pause: U16, pilot: U16, pulses: U16, bit0len: U16,
             bit1len: U16, bitcfg: Byte, bytecfg: Byte, data: seq<Byte>)      // ID 4B
    | Skip(size: nat)          // blocks without signal: info, groups, glue, unsupported
    | Unrecognised             // any other id

  datatype Parse = Cut | Parsed(block: Block)

  /** The number of data bytes of an ID 4B block: `blockLen - 12` in
      `uint32_t`, which wraps for a length below 12. */
  function KcsDataCount(blockLen: U32): (n: nat)
    ensures blockLen >= 12 ==> n + 12 == blockLen
    ensures blockLen < 12 ==> n + 12 == blockLen + U32Mod
  {
    (blockLen - 12) % U32Mod
  }

  /** The distance from a block to the next one. */
  function Size(b: Block): nat
  {
    match b
    case Standard(_, data) => |data| + 5
    case Turbo(_, _, _, _, _, _, _, data) => |data| + 19
    case PureTone(_, _) => 5
    case PulseSequence(lens) => 2 * |lens| + 2
    case DirectRecording(_, _, _, samples) => |samples| + 9
    case Silent(_) => 3
    case SignalLevel(_) => 6
    case MsxKcs(blockLen, _, _, _, _, _, _, _, _) => blockLen + 5
    case Skip(size) => size
    case Unrecognised => 1
  }

  /** The skip distance of an ID 19 block as written: the 32-bit length plus
      5, computed in `uint32_t`. */
  function GeneralizedSkipAsWritten(len: U32): nat
  {
    (len + 5) % U32Mod
  }

  /** A length field of 0xFFFFFFFB makes the skip distance 0: the walk would
      read the same block forever. */
  lemma GeneralizedSkipStalls()
    ensures GeneralizedSkipAsWritten(0xFFFF_FFFB) == 0
  {
  }

  /** The skip distance of an ID 19 block: the 5 header bytes and the
      length the block declares. */
  function GeneralizedSkip(len: U32): (n: nat)
    ensures n >= 5 && n - 5 == len
  {
    len + 5
  }

  /** Every length the corrected skip distance produces moves past the
      header, and it agrees with the 32-bit computation wherever that does
      not wrap. */
  lemma GeneralizedSkipAgrees(len: U32)
    ensures GeneralizedSkip(len) >= 5
    ensures len < U32Mod - 5 ==> GeneralizedSkip(len) == GeneralizedSkipAsWritten(len)
  {
  }

  function PulseLens(buf: seq<Byte>, p: nat, num: nat): (lens: seq<U16>)
    requires p + 2 * num <= |buf|
    ensures |lens| == num
  {
    seq(num, i requires 0 <= i < num => U16At(buf, p + 2 * i))
  }

  /** The block at `pos`, or `Cut` when it needs bytes past the end of the
      file. */
  function ParseAt(buf: seq<Byte>, pos: nat): (r: Parse)
    requires pos < |buf|
    ensures r.Parsed? ==> Size(r.block) >= 1
    ensures r.Parsed? && r.block.MsxKcs? ==> |r.block.data| == KcsDataCount(r.block.blockLen)
  {
    var id := buf[pos];
    if id == IdStandard then
      if pos + 5 > |buf| then Cut
      else
        var len := U16At(buf, pos + 3);
        if pos + 5 + len > |buf| then Cut
        else Parsed(Standard(U16At(buf, pos + 1), buf[pos + 5..pos + 5 + len]))
    else if id == IdTurbo then
      if pos + 19 > |buf| then Cut
      else
        var len := U24At(buf, pos + 16);
        if pos + 19 + len > |buf| then Cut
        else Parsed(Turbo(U16At(buf, pos + 1), U16At(buf, pos + 3), U16At(buf, pos + 5),
                          U16At(buf, pos + 7), U16At(buf, pos + 9), U16At(buf, pos + 11),
                          U16At(buf, pos + 14), buf[pos + 19..pos + 19 + len]))
    else if id == IdPureTone then
      if pos + 5 > |buf| then Cut
      else Parsed(PureTone(U16At(buf, pos + 1), U16At(buf, pos + 3)))
    else if id == IdPulseSequence then
      if pos + 2 > |buf| || pos + 2 + 2 * buf[pos + 1] as int > |buf| then Cut
      else Parsed(PulseSequence(PulseLens(buf, pos + 2, buf[pos + 1])))
    else if id == IdDirectRecording then
      if pos + 9 > |buf| then Cut
      else
        var len := U24At(buf, pos + 6);
        if len == 0 || pos + 9 + len > |buf| then Cut
        else Parsed(DirectRecording(U16At(buf, pos + 1), U16At(buf, pos + 3), buf[pos + 5],
                                    buf[pos + 9..pos + 9 + len]))
    else if id == IdSilence then
      if pos + 3 > |buf| then Cut else Parsed(Silent(U16At(buf, pos + 1)))
    else if id == IdSignalLevel then
      if pos + 6 > |buf| then Cut else Parsed(SignalLevel(buf[pos + 5]))
    else if id == IdMsxKcs then
      if pos + 17 > |buf| then Cut
      else
        var blockLen := U32At(buf, pos + 1);
        var count := KcsDataCount(blockLen);
        if pos + 17 + count > |buf| then Cut
        else Parsed(MsxKcs(blockLen, U16At(buf, pos + 5), U16At(buf, pos + 7), U16At(buf, pos + 9),
                           U16At(buf, pos + 11), U16At(buf, pos + 13), buf[pos + 15], buf[pos + 16],
                           buf[pos + 17..pos + 17 + count]))
    else ParseSkip(buf, pos)
  }

  /** The blocks the converter steps over without producing signal. */
  function ParseSkip(buf: seq<Byte>, pos: nat): (r: Parse)
    requires pos < |buf|
    ensures r.Parsed? ==> r.block.Skip? || r.block.Unrecognised?
    ensures r.Parsed? && r.block.Skip? ==> r.block.size >= 1
  {
    var id := buf[pos];
    if id == IdGroupStart || id == IdText then
      if pos + 2 > |buf| then Cut else Parsed(Skip(buf[pos + 1] as int + 2))
    else if id == IdGroupEnd || id == IdLoopEnd || id == IdReturnSequence then Parsed(Skip(1))
    else if id == IdJump || id == IdLoopStart then Parsed(Skip(3))
    else if id == IdGlue then Parsed(Skip(10))
    else if id == IdArchiveInfo then
      if pos + 3 > |buf| then Cut else Parsed(Skip(U16At(buf, pos + 1) as int + 3))
    else if id == IdCustomInfo then
      if pos + 21 > |buf| then Cut else Parsed(Skip(U32At(buf, pos + 17) as int + 21))
    else if id == IdPureData then
      if pos + 11 > |buf| then Cut else Parsed(Skip(U24At(buf, pos + 8) + 11))
    else if id == IdGeneralized then
      if pos + 5 > |buf| then Cut else Parsed(Skip(GeneralizedSkip(U32At(buf, pos + 1))))
    else if id == IdCallSequence then
      if pos + 3 > |buf| then Cut else Parsed(Skip(U16At(buf, pos + 1) as int * 2 + 3))
    else if id == IdMessage then
      if pos + 3 > |buf| then Cut else Parsed(Skip(buf[pos + 2] as int + 3))
    else Parsed(Unrecognised)
  }

  predicate KnownId(id: Byte)
  {
    id in {IdStandard, IdTurbo, IdPureTone, IdPulseSequence, IdPureData, IdDirectRecording,
           IdGeneralized, IdSilence, IdGroupStart, IdGroupEnd, IdJump, IdLoopStart, IdLoopEnd,
           IdCallSequence, IdReturnSequence, IdSignalLevel, IdText, IdMessage, IdArchiveInfo,
           IdCustomInfo, IdMsxKcs, IdGlue}
  }

  /** An unknown id is stepped over one byte at a time, and only an unknown
      id is. */
  lemma UnknownIdSkipsOneByte(buf: seq<Byte>, pos: nat)
    requires pos < |buf|
    ensures !KnownId(buf[pos]) <==> ParseAt(buf, pos) == Parsed(Unrecognised)
  {
  }

  /** How far the converter advances past each block, read from the
      block's own header fields. */
  lemma BlockAdvance(buf: seq<Byte>, pos: nat)
    requires pos < |buf| && ParseAt(buf, pos).Parsed?
    ensures var id, n := buf[pos], Size(ParseAt(buf, pos).block);
            && (id == IdStandard ==> n == U16At(buf, pos + 3) + 5)
            && (id == IdTurbo ==> n == U24At(buf, pos + 16) + 19)
            && (id == IdPureTone ==> n == 5)
            && (id == IdPulseSequence ==> n == 2 * buf[pos + 1] as int + 2)
            && (id == IdDirectRecording ==> n == U24At(buf, pos + 6) + 9)
            && (id == IdSilence ==> n == 3)
            && (id == IdSignalLevel ==> n == 6)
            && (id == IdMsxKcs ==> n == U32At(buf, pos + 1) + 5)
            && (id == IdGroupStart || id == IdText ==> n == buf[pos + 1] as int + 2)
            && (id == IdGroupEnd || id == IdLoopEnd || id == IdReturnSequence ==> n == 1)
            && (id == IdJump || id == IdLoopStart ==> n == 3)
            && (id == IdGlue ==> n == 10)
            && (id == IdArchiveInfo ==> n == U16At(buf, pos + 1) as int + 3)
            && (id == IdCustomInfo ==> n == U32At(buf, pos + 17) as int + 21)
            && (id == IdPureData ==> n == U24At(buf, pos + 8) + 11)
            && (id == IdGeneralized ==> n == U32At(buf, pos + 1) as int + 5)
            && (id == IdCallSequence ==> n == U16At(buf, pos + 1) as int * 2 + 3)
            && (id == IdMessage ==> n == buf[pos + 2] as int + 3)
            && (!KnownId(id) ==> n == 1)
  {
  }

  /** The data of a block runs up to the next block: the block length the
      converter advances by is the header plus the data it writes. */
  lemma DataEndsBlock(buf: seq<Byte>, pos: nat)
    requires pos < |buf| && ParseAt(buf, pos).Parsed?
    ensures var b := ParseAt(buf, pos).block;
            && pos + Size(b) <= |buf| + (if b.MsxKcs? || b.Skip? || b.Unrecognised? then U32Mod + 21 else 0)
            && (b.Standard? ==> b.data == buf[pos + 5..pos + Size(b)])
            && (b.Turbo? ==> b.data == buf[pos + 19..pos + Size(b)])
            && (b.DirectRecording? ==> b.samples == buf[pos + 9..pos + Size(b)])
            && (b.PulseSequence? ==> pos + Size(b) <= |buf|)
            && (b.MsxKcs? && b.blockLen >= 12 ==> b.data == buf[pos + 17..pos + Size(b)])
  {
  }

  // ----- The signal of each block ------------------------------------------

  /** Blocks 10, 11 and 4B start at a fixed level unless an ID 2B block set
      one; either way the flag is cleared. */
  function StartPhase(t: Tape, level: Level): Tape
  {
    t.(level := if t.phaseChanged then t.level else level, phaseChanged := false)
  }

  /** The closing pulse of a turbo block with a pause. */
  function PauseEdge(pause: U16): seq<U32>
  {
    if pause != 0 then [2000] else []
  }

  /** ID 10: 3223 pilot pulses of 2168, sync pulses 667 and 735, the data
      bytes with 855/1710 T-state bits, and the closing pulse. */
  function StandardPulses(data: seq<Byte>, pause: U16): seq<U32>
  {
    Repeat(2168, 3223) + [667, 735] + TurboData(data, 855, 1710) + PauseEdge(pause)
  }

  /** ID 11: the same shape with every length taken from the block. */
  function TurboPulses(b: Block): seq<U32>
    requires b.Turbo?
  {
    Repeat(b.pilot as U32, b.pilotLen) + [b.sync1, b.sync2] + TurboData(b.data, b.zero, b.one)
      + PauseEdge(b.pause)
  }

  /** ID 12: the pulse length is converted to samples and the result is
      then used as a length in T-states again, `pulses / 2` pairs of it. */
  function PureTonePulses(len: U16, pulses: U16): seq<U32>
  {
    Repeat(TstatesToBytes(len) as U32, 2 * (pulses / 2))
  }

  /** ID 13: each length is converted to samples before it is written as
      a pulse length in T-states. */
  function SequencePulses(lens: seq<U16>): (r: seq<U32>)
    ensures |r| == |lens|
    decreases |lens|
  {
    if |lens| == 0 then []
    else SequencePulses(lens[..|lens| - 1]) + [TstatesToBytes(lens[|lens| - 1]) as U32]
  }

  /** The levels of the `count` low bits of a direct-recording byte, most
      significant first: 127 for a 1 and -127 for a 0. */
  function BitLevels(b: Byte, count: nat): (r: seq<Level>)
    requires count <= 8
    ensures |r| == count
  {
    seq(count, j requires 0 <= j < count => if Bits8(b)[count - 1 - j] then 127 else -127)
  }

  /** All eight bits of every byte. */
  function FullLevels(s: seq<Byte>): (r: seq<Level>)
    ensures |r| == 8 * |s|
    decreases |s|
  {
    if |s| == 0 then [] else FullLevels(s[..|s| - 1]) + BitLevels(s[|s| - 1], 8)
  }

  /** The used bits of the last byte: 0 counts as 1 and more than 8 as 8. */
  function UsedBits(lastByte: Byte): (n: nat)
    ensures 1 <= n <= 8
  {
    if lastByte == 0 then 1 else if lastByte > 8 then 8 else lastByte
  }

  /** ID 15: the levels of every byte but the last, then the used bits of
      the last one. */
  function DirectLevels(samples: seq<Byte>, lastByte: Byte): seq<Level>
    requires |samples| >= 1
  {
    FullLevels(samples[..|samples| - 1]) + BitLevels(samples[|samples| - 1], UsedBits(lastByte))
  }

  /** ID 4B: the configuration it sets, from its own fields. */
  function BlockKcs(b: Block): Kcs
    requires b.MsxKcs?
  {
    DecodeKcs(b.pilot, b.bit0len, b.bit1len, b.bitcfg, b.bytecfg)
  }

  /** ID 4B: the pilot pulses, then every data byte framed as configured. */
  function KcsPulses(b: Block): seq<U32>
    requires b.MsxKcs?
  {
    Repeat(b.pilot as U32, b.pulses) + KcsData(BlockKcs(b), b.data)
  }

  /** The signal state after a block. */
  function Play(t: Tape, b: Block): Tape
  {
    match b
    case Standard(pause, data) =>
      Silence(Emit(StartPhase(t, -127), StandardPulses(data, pause)), pause)
    case Turbo(_, _, _, _, _, _, pause, _) =>
      Silence(Emit(StartPhase(t, -127), TurboPulses(b)), pause)
    case PureTone(len, pulses) => Emit(t, PureTonePulses(len, pulses))
    case PulseSequence(lens) => Emit(t, SequencePulses(lens))
    case DirectRecording(bitTstates, pause, lastByte, samples) =>
      if |samples| == 0 then t
      else Silence(t.(output := t.output + Samples(DirectLevels(samples, lastByte), bitTstates)), pause)
    case Silent(pause) => Silence(t, pause)
    case SignalLevel(level) => t.(phaseChanged := true, level := if level == 0 then -127 else 127)
    case MsxKcs(_, pause, _, _, _, _, _, _, _) =>
      Silence(Emit(StartPhase(t, 127).(kcs := BlockKcs(b)), KcsPulses(b)), pause)
    case Skip(_) => t
    case Unrecognised => t
  }

  /** The level rules: blocks 10 and 11 start low and 4B high unless an ID
      2B block chose the level, each of them clears that choice, and 2B sets
      it. Only an ID 4B block changes the pulse configuration, to the one its
      own fields encode. */
  lemma PhaseRules(t: Tape, b: Block)
    ensures (b.Standard? || b.Turbo?) ==>
              Play(t, b).output == t.output + Render(if t.phaseChanged then t.level else -127,
                                                     if b.Standard? then StandardPulses(b.data, b.pause)
                                                     else TurboPulses(b))
                                            + PauseSamples(b.pause)
    ensures b.MsxKcs? ==>
              Play(t, b).output == t.output + Render(if t.phaseChanged then t.level else 127, KcsPulses(b))
                                            + PauseSamples(b.pause)
    ensures (b.Standard? || b.Turbo? || b.MsxKcs?) ==> !Play(t, b).phaseChanged
    ensures b.SignalLevel? ==> Play(t, b).phaseChanged && Play(t, b).output == t.output
                               && Play(t, b).level == (if b.level == 0 then -127 else 127)
    ensures !(b.Standard? || b.Turbo? || b.MsxKcs? || b.SignalLevel?) ==>
              Play(t, b).phaseChanged == t.phaseChanged
    ensures b.MsxKcs? ==> Play(t, b).kcs == BlockKcs(b)
    ensures !b.MsxKcs? ==> Play(t, b).kcs == t.kcs
  {
    match b
    case Standard(pause, data) => Framed(StartPhase(t, -127), StandardPulses(data, pause), pause);
    case Turbo(_, _, _, _, _, _, pause, _) => Framed(StartPhase(t, -127), TurboPulses(b), pause);
    case MsxKcs(_, pause, _, _, _, _, _, _, _) =>
      Framed(StartPhase(t, 127).(kcs := BlockKcs(b)), KcsPulses(b), pause);
    case _ =>
  }

  /** The zero samples of a pause. */
  function PauseSamples(pause: U16): seq<Level>
  {
    if pause == 0 then [] else Repeat(0, SilenceCount(pause))
  }

  lemma Framed(t: Tape, lens: seq<U32>, pause: U16)
    ensures Silence(Emit(t, lens), pause).output == t.output + Render(t.level, lens) + PauseSamples(pause)
    ensures Silence(Emit(t, lens), pause).phaseChanged == t.phaseChanged
  {
  }

  /** Every block only appends to the signal. */
  lemma PlayAppends(t: Tape, b: Block)
    ensures |t.output| <= |Play(t, b).output| && Play(t, b).output[..|t.output|] == t.output
  {
  }

  // ----- First-file type ---------------------------------------------------

  datatype FileType = Unknown | Ascii | Binary | Basic

  /** The `bitcfg`/`bytecfg` pairs of MSX and SVI tapes. */
  datatype KcsIds = KcsIds(msxBitcfg: Byte, msxBytecfg: Byte, sviBitcfg: Byte, sviBytecfg: Byte)

  /** An ID 4B block that can carry a file header: MSX framing with 16 data
      bytes or SVI framing with 16 to 18, and at least 28 bytes of file from
      the block on. */
  predicate HeaderCandidate(b: Block, pos: nat, size: nat, ids: KcsIds)
  {
    && b.MsxKcs?
    && pos + 12 + 5 + 10 < size
    && ((b.bitcfg == ids.msxBitcfg && b.bytecfg == ids.msxBytecfg && KcsDataCount(b.blockLen) == 16)
        || (b.bitcfg == ids.sviBitcfg && b.bytecfg == ids.sviBytecfg
            && 16 <= KcsDataCount(b.blockLen) <= 18))
  }

  /** The first ten data bytes all equal `v`. */
  predicate Announces(data: seq<Byte>, v: Byte)
    requires |data| >= 10
  {
    forall i :: 0 <= i < 10 ==> data[i] == v
  }

  /** The file type a header announces with ten equal bytes. */
  function FileTypeOf(data: seq<Byte>): (t: FileType)
    requires |data| >= 10
    ensures t == Ascii <==> Announces(data, 0xEA)
    ensures t == Binary <==> Announces(data, 0xD0)
    ensures t == Basic <==> Announces(data, 0xD3)
  {
    // Ten equal bytes announce one value only: look at the first.
    assert forall v :: Announces(data, v) ==> data[0] == v;
    if Announces(data, 0xEA) then Ascii
    else if Announces(data, 0xD0) then Binary
    else if Announces(data, 0xD3) then Basic
    else Unknown
  }

  // ----- The walk ----------------------------------------------------------

  datatype Outcome = NotTsx | Truncated | Converted(tape: Tape, fileType: FileType, warning: bool)

  /** The walk from `pos` to the end of the file: each block is played in
      turn, the first header candidate decides the file type, and an unknown
      id raises the warning. Once the file type is decided it never changes,
      and once raised the warning stays. */
  function Walk(buf: seq<Byte>, pos: nat, ids: KcsIds, t: Tape, fileType: FileType,
                firstFile: bool, warning: bool): (r: Outcome)
    ensures r != NotTsx
    ensures r.Converted? && !firstFile ==> r.fileType == fileType
    ensures r.Converted? && warning ==> r.warning
    decreases |buf| - pos
  {
    if pos >= |buf| then Converted(t, fileType, warning)
    else
      match ParseAt(buf, pos)
      case Cut => Truncated
      case Parsed(b) =>
        var detect := firstFile && HeaderCandidate(b, pos, |buf|, ids);
        Walk(buf, pos + Size(b), ids, Play(t, b), if detect then FileTypeOf(b.data) else fileType,
             firstFile && !detect, warning || b.Unrecognised?)
  }

  /** One step of the walk: a block cut short ends it, any other block is
      played and the walk goes on after it. */
  lemma WalkStep(buf: seq<Byte>, pos: nat, ids: KcsIds, t: Tape, fileType: FileType,
                 firstFile: bool, warning: bool)
    requires pos < |buf|
    ensures ParseAt(buf, pos).Cut? ==> Walk(buf, pos, ids, t, fileType, firstFile, warning) == Truncated
    ensures ParseAt(buf, pos).Parsed? ==>
              var b := ParseAt(buf, pos).block;
              var detect := firstFile && HeaderCandidate(b, pos, |buf|, ids);
              Walk(buf, pos, ids, t, fileType, firstFile, warning)
                == Walk(buf, pos + Size(b), ids, Play(t, b), if detect then FileTypeOf(b.data) else fileType,
                        firstFile && !detect, warning || b.Unrecognised?)
  {
  }

  /** `convert`: a file without the signature is rejected, any other is
      walked from offset 10. */
  function Convert(buf: seq<Byte>, ids: KcsIds, t: Tape, fileType: FileType): (r: Outcome)
    ensures r == NotTsx <==> !HasSignature(buf)
  {
    if !HasSignature(buf) then NotTsx else Walk(buf, FirstBlock, ids, t, fileType, true, false)
  }

  /** The first header candidate decides the file type by its first ten
      data bytes. */
  lemma FirstCandidateDecides(buf: seq<Byte>, pos: nat, ids: KcsIds, t: Tape, fileType: FileType,
                              warning: bool)
    requires pos < |buf| && ParseAt(buf, pos).Parsed?
    requires HeaderCandidate(ParseAt(buf, pos).block, pos, |buf|, ids)
    ensures |ParseAt(buf, pos).block.data| >= 10
    ensures Walk(buf, pos, ids, t, fileType, true, warning).Converted? ==>
              Walk(buf, pos, ids, t, fileType, true, warning).fileType
                == FileTypeOf(ParseAt(buf, pos).block.data)
  {
    WalkStep(buf, pos, ids, t, fileType, true, warning);
  }

}
