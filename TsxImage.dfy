/*
 * The converter object of src/cassette/TsxImage.cc: it appends the samples
 * of each block to its `output` vector in place, keeping the level of the
 * next pulse, the ID 2B phase flag and the ID 4B configuration in fields.
 * Every method is proved to produce the signal the functions of
 * TsxSignal and TsxFormat describe.
 */
module TsxImage {
  import opened TsxSignal
  import opened TsxFormat

  /** How `convert` ends: the file lacks the signature (the C++ throws),
      a block reaches past the end of the file, or the walk completes, with
      the flag for skipped unknown blocks. */
  datatype Status = NotValid | Overrun | Ok(warning: bool)

  lemma RepeatSnoc<T>(x: T, n: nat)
    ensures Repeat(x, n) + [x] == Repeat(x, n + 1)
  {
  }

  /** One more bit of a bit string, written as its pulses. */
  lemma BitStep(t0: Tape, bits: seq<bool>, j: nat, zero: seq<U32>, one: seq<U32>)
    requires j < |bits|
    ensures Emit(Emit(t0, BitPulses(bits[..j], zero, one)), if bits[j] then one else zero)
              == Emit(t0, BitPulses(bits[..j + 1], zero, one))
  {
    assert bits[..j + 1][..j] == bits[..j];
    EmitConcat(t0, BitPulses(bits[..j], zero, one), if bits[j] then one else zero);
  }

  class TsxImage {
    var output: seq<Level>
    var currentValue: Level
    var phaseChanged: bool
    /** The fractional sample count carried between `writeSample` calls; a
        float in the C++ that only ever holds whole numbers. */
    var acumBytes: nat
    var pulsePilot4B: U16
    var pulseOne4B: U16
    var pulseZero4B: U16
    var numZeroPulses4B: Byte
    var numOnePulses4B: Byte
    var byteStartBits4B: Byte
    var byteStartValue4B: bool
    var byteStopBits4B: Byte
    var byteStopValue4B: bool
    var msb4B: bool
    var firstFileType: FileType

    /** Every block starts with no carried samples and every write ends
        with none. */
    ghost predicate Valid()
      reads this
    {
      acumBytes == 0
    }

    /** The signal state the fields hold. */
    ghost function State(): Tape
      reads this
    {
      Tape(output, currentValue, phaseChanged,
           Kcs(pulsePilot4B, pulseOne4B, pulseZero4B, numZeroPulses4B, numOnePulses4B,
               byteStartBits4B, byteStartValue4B, byteStopBits4B, byteStopValue4B, msb4B))
    }

    /** An empty image of unknown file type; the starting level and phase
        flag are member initialisers of the class declaration. */
    constructor (level: Level, phase: bool)
      ensures Valid()
      ensures output == [] && currentValue == level && phaseChanged == phase
      ensures firstFileType == Unknown
    {
      output := [];
      currentValue := level;
      phaseChanged := phase;
      acumBytes := 0;
      firstFileType := Unknown;
    }

    /** `getSampleAt`: the sample at a position of the 96 kHz signal scaled
        to 16 bits, silence past the end. */
    function GetSampleAt(pos: nat): (s: int)
      reads this
      ensures -0x8000 <= s < 0x8000 && s % 256 == 0
      ensures pos < |output| ==> s / 256 == output[pos]
      ensures pos >= |output| ==> s == 0
    {
      if pos < |output| then output[pos] as int * 256 else 0
    }

    /** `writeSample`: the carried count plus the samples of `tstates`,
        all at `value`; the carry is used up. */
    method WriteSample(tstates: U32, value: Level)
      modifies this`output, this`acumBytes
      ensures output == old(output) + Repeat(value, old(acumBytes) + TstatesToBytes(tstates))
      ensures acumBytes == 0
    {
      acumBytes := acumBytes + TstatesToBytes(tstates);
      output := output + Repeat(value, acumBytes);
      acumBytes := acumBytes - acumBytes;
    }

    method WritePulse(tstates: U32)
      requires Valid()
      modifies this`output, this`acumBytes, this`currentValue
      ensures Valid() && State() == Emit(old(State()), [tstates])
    {
      WriteSample(tstates, currentValue);
      currentValue := Negate(currentValue);
      EmitPulse(old(State()), tstates);
    }

    /** `write0`: `numZeroPulses4B` pulses of `pulseZero4B`. */
    method Write0()
      requires Valid()
      modifies this`output, this`acumBytes, this`currentValue
      ensures Valid() && State() == Emit(old(State()), KcsZero(old(State()).kcs))
    {
      ghost var t0 := State();
      var t := 0;
      while t < numZeroPulses4B
        invariant 0 <= t <= numZeroPulses4B
        invariant Valid() && State() == Emit(t0, Repeat(pulseZero4B as U32, t))
      {
        WritePulse(pulseZero4B);
        EmitConcat(t0, Repeat(pulseZero4B as U32, t), [pulseZero4B]);
        RepeatSnoc(pulseZero4B as U32, t);
        t := t + 1;
      }
    }

    /** `write1`: `numOnePulses4B` pulses of `pulseOne4B`. */
    method Write1()
      requires Valid()
      modifies this`output, this`acumBytes, this`currentValue
      ensures Valid() && State() == Emit(old(State()), KcsOne(old(State()).kcs))
    {
      ghost var t0 := State();
      var t := 0;
      while t < numOnePulses4B
        invariant 0 <= t <= numOnePulses4B
        invariant Valid() && State() == Emit(t0, Repeat(pulseOne4B as U32, t))
      {
        WritePulse(pulseOne4B);
        EmitConcat(t0, Repeat(pulseOne4B as U32, t), [pulseOne4B]);
        RepeatSnoc(pulseOne4B as U32, t);
        t := t + 1;
      }
    }

    /** `writeHeader4B(s)`: `s` pilot pulses, none for a negative count. */
    method WriteHeader4B(s: int)
      requires Valid()
      modifies this`output, this`acumBytes, this`currentValue
      ensures Valid() && State() == Emit(old(State()), Repeat(old(pulsePilot4B) as U32, if s < 0 then 0 else s))
    {
      ghost var t0 := State();
      var i := 0;
      while i < s
        invariant 0 <= i && (s >= 0 ==> i <= s) && (s < 0 ==> i == 0)
        invariant Valid() && State() == Emit(t0, Repeat(pulsePilot4B as U32, i))
      {
        WritePulse(pulsePilot4B);
        EmitConcat(t0, Repeat(pulsePilot4B as U32, i), [pulsePilot4B]);
        RepeatSnoc(pulsePilot4B as U32, i);
        i := i + 1;
      }
    }

    /** Writes bit `bits[j]` with the configured pulses. */
    method WriteKcsBit(ghost t0: Tape, ghost bits: seq<bool>, j: nat, bit: bool)
      requires Valid() && j < |bits| && bits[j] == bit
      requires State() == Emit(t0, BitPulses(bits[..j], KcsZero(t0.kcs), KcsOne(t0.kcs)))
      modifies this`output, this`acumBytes, this`currentValue
      ensures Valid() && State() == Emit(t0, BitPulses(bits[..j + 1], KcsZero(t0.kcs), KcsOne(t0.kcs)))
    {
      if bit {
        Write1();
      } else {
        Write0();
      }
      BitStep(t0, bits, j, KcsZero(t0.kcs), KcsOne(t0.kcs));
    }

    /** `writeByte4B`: the start bits, the eight data bits in the
        configured order and the stop bits. */
    method WriteByte4B(b: Byte)
      requires Valid()
      modifies this`output, this`acumBytes, this`currentValue
      ensures Valid() && State() == Emit(old(State()), KcsBytePulses(old(State()).kcs, b))
    {
      ghost var t0 := State();
      WriteStartBits4B(t0, b);
      WriteDataBits4B(t0, b);
      WriteStopBits4B(t0, b);
    }

    /** The start bits of a `writeByte4B`. */
    method WriteStartBits4B(ghost t0: Tape, b: Byte)
      requires Valid() && State() == t0
      modifies this`output, this`acumBytes, this`currentValue
      ensures Valid() && State().kcs == t0.kcs
      ensures State() == Emit(t0, BitPulses(KcsByteBits(t0.kcs, b)[..byteStartBits4B], KcsZero(t0.kcs), KcsOne(t0.kcs)))
    {
      ghost var bits := KcsByteBits(t0.kcs, b);
      KcsFramingBits(t0.kcs, b);
      assert bits[..0] == [];
      WriteFraming(t0, bits, 0, byteStartBits4B, byteStartValue4B);
    }

    /** The stop bits of a `writeByte4B`, which complete the byte. */
    method WriteStopBits4B(ghost t0: Tape, b: Byte)
      requires Valid() && State().kcs == t0.kcs
      requires State() == Emit(t0, BitPulses(KcsByteBits(t0.kcs, b)[..byteStartBits4B + 8], KcsZero(t0.kcs), KcsOne(t0.kcs)))
      modifies this`output, this`acumBytes, this`currentValue
      ensures Valid() && State() == Emit(t0, KcsBytePulses(t0.kcs, b))
    {
      ghost var bits := KcsByteBits(t0.kcs, b);
      KcsFramingBits(t0.kcs, b);
      WriteFraming(t0, bits, byteStartBits4B + 8, byteStopBits4B, byteStopValue4B);
      assert bits[..|bits|] == bits;
    }

    /** The eight data bits of a byte, in the configured order; bit k of
        `b` is the mask test `b & (1 << k)`. */
    method WriteDataBits4B(ghost t0: Tape, b: Byte)
      requires Valid() && State().kcs == t0.kcs
      requires State() == Emit(t0, BitPulses(KcsByteBits(t0.kcs, b)[..byteStartBits4B], KcsZero(t0.kcs), KcsOne(t0.kcs)))
      modifies this`output, this`acumBytes, this`currentValue
      ensures Valid()
      ensures State() == Emit(t0, BitPulses(KcsByteBits(t0.kcs, b)[..byteStartBits4B + 8], KcsZero(t0.kcs), KcsOne(t0.kcs)))
    {
      ghost var bits, zero, one := KcsByteBits(t0.kcs, b), KcsZero(t0.kcs), KcsOne(t0.kcs);
      var i := 0;
      while i < 8
        invariant 0 <= i <= 8
        invariant Valid() && State().kcs == t0.kcs
        invariant State() == Emit(t0, BitPulses(bits[..byteStartBits4B + i], zero, one))
      {
        WriteDataBit4B(t0, b, i);
        i := i + 1;
      }
    }

    /** Data bit `i` of a `writeByte4B`, counted in sending order. */
    method WriteDataBit4B(ghost t0: Tape, b: Byte, i: nat)
      requires Valid() && State().kcs == t0.kcs && i < 8
      requires State() == Emit(t0, BitPulses(KcsByteBits(t0.kcs, b)[..byteStartBits4B + i], KcsZero(t0.kcs), KcsOne(t0.kcs)))
      modifies this`output, this`acumBytes, this`currentValue
      ensures Valid()
      ensures State() == Emit(t0, BitPulses(KcsByteBits(t0.kcs, b)[..byteStartBits4B + i + 1], KcsZero(t0.kcs), KcsOne(t0.kcs)))
    {
      ghost var bits := KcsByteBits(t0.kcs, b);
      var j := byteStartBits4B + i;
      var bit := if msb4B then Bits8(b)[7 - i] else Bits8(b)[i];
      assert j < |bits| && bits[j] == bit by { KcsDataBitAt(t0.kcs, b, i); }
      WriteKcsBit(t0, bits, j, bit);
    }

    /** The `count` start or stop bits of a byte, all `value`, from bit
        `from` of the byte's bit string on. */
    method WriteFraming(ghost t0: Tape, ghost bits: seq<bool>, from: nat, count: nat, value: bool)
      requires Valid() && from + count <= |bits|
      requires forall j :: from <= j < from + count ==> bits[j] == value
      requires State() == Emit(t0, BitPulses(bits[..from], KcsZero(t0.kcs), KcsOne(t0.kcs)))
      modifies this`output, this`acumBytes, this`currentValue
      ensures Valid() && State() == Emit(t0, BitPulses(bits[..from + count], KcsZero(t0.kcs), KcsOne(t0.kcs)))
    {
      var t := 0;
      while t < count
        invariant 0 <= t <= count
        invariant Valid() && State() == Emit(t0, BitPulses(bits[..from + t], KcsZero(t0.kcs), KcsOne(t0.kcs)))
      {
        WriteKcsBit(t0, bits, from + t, value);
        t := t + 1;
      }
    }

    /** `writeSilence(ms)`. */
    method WriteSilence(ms: int)
      modifies this`output, this`currentValue
      ensures State() == Silence(old(State()), ms)
    {
      if ms != 0 {
        output := output + Repeat(0, SilenceCount(ms));
        currentValue := 127;
      }
    }

    method WriteTurboPilot(tstates: U16)
      requires Valid()
      modifies this`output, this`acumBytes, this`currentValue
      ensures Valid() && State() == Emit(old(State()), [tstates])
    {
      WritePulse(tstates);
    }

    /** Two pulses of the given lengths. */
    method WriteTwo(first: U16, second: U16)
      requires Valid()
      modifies this`output, this`acumBytes, this`currentValue
      ensures Valid() && State() == Emit(old(State()), [first, second])
    {
      WritePulse(first);
      WritePulse(second);
      EmitConcat(old(State()), [first], [second]);
      assert [first] + [second] == [first, second];
    }

    method WriteTurboSync(sync1: U16, sync2: U16)
      requires Valid()
      modifies this`output, this`acumBytes, this`currentValue
      ensures Valid() && State() == Emit(old(State()), [sync1, sync2])
    {
      WriteTwo(sync1, sync2);
    }

    method WriteTurbo0(tstates: U16)
      requires Valid()
      modifies this`output, this`acumBytes, this`currentValue
      ensures Valid() && State() == Emit(old(State()), [tstates, tstates])
    {
      WriteTwo(tstates, tstates);
    }

    method WriteTurbo1(tstates: U16)
      requires Valid()
      modifies this`output, this`acumBytes, this`currentValue
      ensures Valid() && State() == Emit(old(State()), [tstates, tstates])
    {
      WriteTwo(tstates, tstates);
    }

    /** Writes turbo bit `bits[j]`: `writeTurbo1` for a 1, `writeTurbo0`
        for a 0. */
    method WriteTurboBit(ghost t0: Tape, ghost bits: seq<bool>, j: nat, bit: bool, zerolen: U16, onelen: U16)
      requires Valid() && j < |bits| && bits[j] == bit
      requires State() == Emit(t0, BitPulses(bits[..j], [zerolen, zerolen], [onelen, onelen]))
      modifies this`output, this`acumBytes, this`currentValue
      ensures Valid() && State() == Emit(t0, BitPulses(bits[..j + 1], [zerolen, zerolen], [onelen, onelen]))
    {
      if bit {
        WriteTurbo1(onelen);
      } else {
        WriteTurbo0(zerolen);
      }
      BitStep(t0, bits, j, [zerolen, zerolen], [onelen, onelen]);
    }

    /** `writeTurboByte`: bit i tested with `128 >> i`, each as two pulses. */
    method WriteTurboByte(b: Byte, bits: Byte, zerolen: U16, onelen: U16)
      requires Valid()
      modifies this`output, this`acumBytes, this`currentValue
      ensures Valid() && State() == Emit(old(State()), TurboBytePulses(b, bits, zerolen, onelen))
    {
      ghost var t0 := State();
      ghost var s := TurboBits(b, bits);
      assert s[..0] == [];
      var i := 0;
      while i < bits
        invariant 0 <= i <= bits
        invariant Valid() && State() == Emit(t0, BitPulses(s[..i], [zerolen, zerolen], [onelen, onelen]))
      {
        var bit := i < 8 && Bits8(b)[7 - i];
        WriteTurboBit(t0, s, i, bit, zerolen, onelen);
        i := i + 1;
      }
      assert s[..bits] == s;
    }

    /** The data bytes of a turbo block. */
    method WriteTurboData(data: seq<Byte>, zerolen: U16, onelen: U16)
      requires Valid()
      modifies this`output, this`acumBytes, this`currentValue
      ensures Valid() && State() == Emit(old(State()), TurboData(data, zerolen, onelen))
    {
      ghost var t0 := State();
      assert data[..0] == [];
      var k := 0;
      while k < |data|
        invariant 0 <= k <= |data|
        invariant Valid() && State() == Emit(t0, TurboData(data[..k], zerolen, onelen))
      {
        WriteTurboByte(data[k], 8, zerolen, onelen);
        assert data[..k + 1][..k] == data[..k];
        EmitConcat(t0, TurboData(data[..k], zerolen, onelen), TurboBytePulses(data[k], 8, zerolen, onelen));
        k := k + 1;
      }
      assert data[..|data|] == data;
    }

    /** The start of an ID 10, 11 or 4B block: unless an ID 2B block set
        the level, it starts at `level`; either way the next block starts
        afresh. */
    method BeginPhase(level: Level)
      modifies this`currentValue, this`phaseChanged
      ensures State() == StartPhase(old(State()), level)
    {
      if !phaseChanged {
        currentValue := level;
      }
      phaseChanged := false;
    }

    /** The pilot tone of an ID 10 or 11 block: `count` pilot pulses. */
    method WriteTurboPilots(tstates: U16, count: nat)
      requires Valid()
      modifies this`output, this`acumBytes, this`currentValue
      ensures Valid() && State() == Emit(old(State()), Repeat(tstates as U32, count))
    {
      ghost var t0 := State();
      var i := 0;
      while i < count
        invariant 0 <= i <= count
        invariant Valid() && State() == Emit(t0, Repeat(tstates as U32, i))
      {
        WriteTurboPilot(tstates);
        EmitConcat(t0, Repeat(tstates as U32, i), [tstates]);
        RepeatSnoc(tstates as U32, i);
        i := i + 1;
      }
    }

    /** `writeBlock10`: standard speed block. */
    method WriteBlock10(b: Block) returns (n: nat)
      requires Valid() && b.Standard?
      modifies this`output, this`acumBytes, this`currentValue, this`phaseChanged
      ensures Valid() && State() == Play(old(State()), b) && n == Size(b)
    {
      BeginPhase(-127);
      ghost var t0 := State();
      WriteTurboPilots(2168, 3223);
      WriteTurboSync(667, 735);
      EmitConcat(t0, Repeat(2168, 3223), [667, 735]);
      WriteTurboData(b.data, 855, 1710);
      EmitConcat(t0, Repeat(2168, 3223) + [667, 735], TurboData(b.data, 855, 1710));
      if b.pause != 0 {
        WritePulse(2000);
      }
      EmitConcat(t0, Repeat(2168, 3223) + [667, 735] + TurboData(b.data, 855, 1710), PauseEdge(b.pause));
      WriteSilence(b.pause);
      n := |b.data| + 5;
    }

    /** `writeBlock11`: turbo speed block. */
    method WriteBlock11(b: Block) returns (n: nat)
      requires Valid() && b.Turbo?
      modifies this`output, this`acumBytes, this`currentValue, this`phaseChanged
      ensures Valid() && State() == Play(old(State()), b) && n == Size(b)
    {
      BeginPhase(-127);
      ghost var t0 := State();
      WriteTurboPilots(b.pilot, b.pilotLen);
      ghost var pilots := Repeat(b.pilot as U32, b.pilotLen);
      WriteTurboSync(b.sync1, b.sync2);
      EmitConcat(t0, pilots, [b.sync1, b.sync2]);
      WriteTurboData(b.data, b.zero, b.one);
      EmitConcat(t0, pilots + [b.sync1, b.sync2], TurboData(b.data, b.zero, b.one));
      if b.pause != 0 {
        WritePulse(2000);
      }
      EmitConcat(t0, pilots + [b.sync1, b.sync2] + TurboData(b.data, b.zero, b.one), PauseEdge(b.pause));
      WriteSilence(b.pause);
      n := |b.data| + 19;
    }

    /** `writeBlock12`: pure tone. */
    method WriteBlock12(b: Block) returns (n: nat)
      requires Valid() && b.PureTone?
      modifies this`output, this`acumBytes, this`currentValue
      ensures Valid() && State() == Play(old(State()), b) && n == Size(b)
    {
      ghost var t0 := State();
      var pulse: U32 := TstatesToBytes(b.len);
      var i := 0;
      while i < b.pulses / 2
        invariant 0 <= i <= b.pulses / 2
        invariant Valid() && State() == Emit(t0, Repeat(pulse, 2 * i))
      {
        WritePulse(pulse);
        WritePulse(pulse);
        EmitConcat(t0, Repeat(pulse, 2 * i), [pulse]);
        RepeatSnoc(pulse, 2 * i);
        EmitConcat(t0, Repeat(pulse, 2 * i + 1), [pulse]);
        RepeatSnoc(pulse, 2 * i + 1);
        i := i + 1;
      }
      n := 5;
    }

    /** `writeBlock13`: pulse sequence. */
    method WriteBlock13(b: Block) returns (n: nat)
      requires Valid() && b.PulseSequence?
      modifies this`output, this`acumBytes, this`currentValue
      ensures Valid() && State() == Play(old(State()), b) && n == Size(b)
    {
      ghost var t0 := State();
      assert b.lens[..0] == [];
      var i := 0;
      while i < |b.lens|
        invariant 0 <= i <= |b.lens|
        invariant Valid() && State() == Emit(t0, SequencePulses(b.lens[..i]))
      {
        WritePulse(TstatesToBytes(b.lens[i]));
        assert b.lens[..i + 1][..i] == b.lens[..i];
        EmitConcat(t0, SequencePulses(b.lens[..i]), [TstatesToBytes(b.lens[i]) as U32]);
        i := i + 1;
      }
      assert b.lens[..|b.lens|] == b.lens;
      n := 2 * |b.lens| + 2;
    }

    /** One direct-recording sample per bit, `count` bits of `s` from the
        most significant down. */
    method WriteBits15(bitTstates: U16, s: Byte, count: nat)
      requires Valid() && count <= 8
      modifies this`output, this`acumBytes
      ensures Valid() && output == old(output) + Samples(BitLevels(s, count), bitTstates)
    {
      ghost var o0 := output;
      ghost var levels := BitLevels(s, count);
      assert levels[..0] == [];
      var j := count as int - 1;
      while j >= 0
        invariant -1 <= j < count
        invariant Valid() && output == o0 + Samples(levels[..count - 1 - j], bitTstates)
      {
        ghost var k := count - 1 - j;
        assert levels[..k + 1][..k] == levels[..k];
        assert levels[k] == if Bits8(s)[j] then 127 else -127;
        WriteSample(bitTstates, if Bits8(s)[j] then 127 else -127);
        j := j - 1;
      }
      assert levels[..count] == levels;
    }

    /** The samples of a direct recording: every bit of each byte but the
        last, then the used bits of the last one. */
    method WriteDirect(bitTstates: U16, lastByte: Byte, samples: seq<Byte>)
      requires Valid() && |samples| >= 1
      modifies this`output, this`acumBytes
      ensures Valid() && output == old(output) + Samples(DirectLevels(samples, lastByte), bitTstates)
    {
      ghost var o0 := output;
      var len := |samples|;
      WriteFullBytes(bitTstates, samples, len - 1);
      var used := lastByte;
      if used == 0 {
        used := 1;
      }
      if used > 8 {
        used := 8;
      }
      WriteBits15(bitTstates, samples[len - 1], used);
      ghost var full, last := FullLevels(samples[..len - 1]), BitLevels(samples[len - 1], used);
      assert output == o0 + (Samples(full, bitTstates) + Samples(last, bitTstates));
      assert DirectLevels(samples, lastByte) == full + last;
      SamplesConcat(full, last, bitTstates);
    }

    /** Every bit of the first `count` bytes of a direct recording. */
    method WriteFullBytes(bitTstates: U16, samples: seq<Byte>, count: nat)
      requires Valid() && count <= |samples|
      modifies this`output, this`acumBytes
      ensures Valid() && output == old(output) + Samples(FullLevels(samples[..count]), bitTstates)
    {
      ghost var o0 := output;
      var i := 0;
      assert samples[..0] == [];
      while i < count
        invariant 0 <= i <= count
        invariant Valid() && output == o0 + Samples(FullLevels(samples[..i]), bitTstates)
      {
        WriteFullByte(o0, bitTstates, samples, i);
        i := i + 1;
      }
    }

    /** The eight bits of byte `i` of a direct recording. */
    method WriteFullByte(ghost o0: seq<Level>, bitTstates: U16, samples: seq<Byte>, i: nat)
      requires Valid() && i < |samples|
      requires output == o0 + Samples(FullLevels(samples[..i]), bitTstates)
      modifies this`output, this`acumBytes
      ensures Valid() && output == o0 + Samples(FullLevels(samples[..i + 1]), bitTstates)
    {
      WriteBits15(bitTstates, samples[i], 8);
      assert samples[..i + 1][..i] == samples[..i];
      SamplesConcat(FullLevels(samples[..i]), BitLevels(samples[i], 8), bitTstates);
    }

    /** `writeBlock15`: direct recording, then the pause. */
    method WriteBlock15(b: Block) returns (n: nat)
      requires Valid() && b.DirectRecording? && |b.samples| >= 1
      modifies this`output, this`acumBytes, this`currentValue
      ensures Valid() && State() == Play(old(State()), b) && n == Size(b)
    {
      WriteDirect(b.bitTstates, b.lastByte, b.samples);
      WriteSilence(b.pause);
      n := |b.samples| + 9;
    }

    /** `writeBlock4B`: take the configuration from the block, then the
        pilot, the framed data bytes and the pause. */
    method WriteBlock4B(b: Block) returns (n: nat)
      requires Valid() && b.MsxKcs?
      modifies this`output, this`acumBytes, this`currentValue, this`phaseChanged
      modifies this`pulsePilot4B, this`pulseOne4B, this`pulseZero4B, this`numZeroPulses4B,
               this`numOnePulses4B, this`byteStartBits4B, this`byteStartValue4B,
               this`byteStopBits4B, this`byteStopValue4B, this`msb4B
      ensures Valid() && State() == Play(old(State()), b) && n == Size(b)
    {
      BeginPhase(127);
      SetKcs4B(b);
      ghost var t0 := State();
      assert t0 == StartPhase(old(State()), 127).(kcs := BlockKcs(b));
      WriteHeader4B(b.pulses);
      WriteKcsData(b.data);
      EmitConcat(t0, Repeat(b.pilot as U32, b.pulses), KcsData(BlockKcs(b), b.data));
      WriteSilence(b.pause);
      n := b.blockLen + 5;
    }

    /** The pulse configuration an ID 4B block sets. */
    method SetKcs4B(b: Block)
      requires b.MsxKcs?
      modifies this`pulsePilot4B, this`pulseOne4B, this`pulseZero4B, this`numZeroPulses4B,
               this`numOnePulses4B, this`byteStartBits4B, this`byteStartValue4B,
               this`byteStopBits4B, this`byteStopValue4B, this`msb4B
      ensures State() == old(State()).(kcs := BlockKcs(b))
    {
      pulsePilot4B := b.pilot;
      pulseOne4B := b.bit1len;
      pulseZero4B := b.bit0len;
      SetBitcfg4B(b.bitcfg);
      SetBytecfg4B(b.bytecfg);
    }

    /** The pulse counts of `bitcfg`: zero pulses in the high nibble, one
        pulses in the low nibble, and a count of 0 meaning 16. */
    method SetBitcfg4B(bitcfg: Byte)
      modifies this`numZeroPulses4B, this`numOnePulses4B
      ensures numZeroPulses4B == PulseCount(bitcfg / 16) && numOnePulses4B == PulseCount(bitcfg % 16)
    {
      numZeroPulses4B := bitcfg / 16;
      numOnePulses4B := bitcfg % 16;
      if numZeroPulses4B == 0 {
        numZeroPulses4B := 16;
      }
      if numOnePulses4B == 0 {
        numOnePulses4B := 16;
      }
    }

    /** The byte framing of `bytecfg`; its masks are written as divisions
        and remainders. */
    method SetBytecfg4B(bytecfg: Byte)
      modifies this`byteStartBits4B, this`byteStartValue4B, this`byteStopBits4B,
               this`byteStopValue4B, this`msb4B
      ensures byteStartBits4B == bytecfg / 64 && byteStartValue4B == ((bytecfg / 32) % 2 == 1)
      ensures byteStopBits4B == (bytecfg / 8) % 4 && byteStopValue4B == ((bytecfg / 4) % 2 == 1)
      ensures msb4B == (bytecfg % 2 == 1)
    {
      byteStartBits4B := bytecfg / 64;
      byteStartValue4B := (bytecfg / 32) % 2 == 1;
      byteStopBits4B := (bytecfg / 8) % 4;
      byteStopValue4B := (bytecfg / 4) % 2 == 1;
      msb4B := bytecfg % 2 == 1;
    }

    /** The data bytes of an ID 4B block. */
    method WriteKcsData(data: seq<Byte>)
      requires Valid()
      modifies this`output, this`acumBytes, this`currentValue
      ensures Valid() && State() == Emit(old(State()), KcsData(old(State()).kcs, data))
    {
      ghost var t0 := State();
      assert data[..0] == [];
      var k := 0;
      while k < |data|
        invariant 0 <= k <= |data|
        invariant Valid() && State() == Emit(t0, KcsData(t0.kcs, data[..k]))
      {
        WriteByte4B(data[k]);
        assert data[..k + 1][..k] == data[..k];
        EmitConcat(t0, KcsData(t0.kcs, data[..k]), KcsBytePulses(t0.kcs, data[k]));
        k := k + 1;
      }
      assert data[..|data|] == data;
    }

    /** One step of the block walk: the block's signal, and the distance
        to the next block. */
    method PlayBlock(b: Block) returns (n: nat)
      requires Valid()
      modifies this
      ensures Valid() && State() == Play(old(State()), b) && n == Size(b)
      ensures firstFileType == old(firstFileType)
    {
      match b
      case Standard(_, _) => n := WriteBlock10(b);
      case Turbo(_, _, _, _, _, _, _, _) => n := WriteBlock11(b);
      case PureTone(_, _) => n := WriteBlock12(b);
      case PulseSequence(_) => n := WriteBlock13(b);
      case DirectRecording(_, _, _, samples) =>
        if |samples| == 0 {
          n := Size(b);
        } else {
          n := WriteBlock15(b);
        }
      case Silent(pause) =>
        WriteSilence(pause);
        n := 3;
      case SignalLevel(level) =>
        phaseChanged := true;
        currentValue := if level == 0 then -127 else 127;
        n := 6;
      case MsxKcs(_, _, _, _, _, _, _, _, _) => n := WriteBlock4B(b);
      case Skip(size) => n := size;
      case Unrecognised => n := 1;
    }

    /** `convert`: check the signature, then walk the blocks from offset
        10, detecting the file type at the first header candidate. */
    method Convert(buf: seq<Byte>, ids: KcsIds) returns (status: Status)
      requires Valid()
      modifies this
      ensures Valid()
      ensures var r := TsxFormat.Convert(buf, ids, old(State()), old(firstFileType));
              && (status == NotValid <==> r == NotTsx)
              && (status == Overrun <==> r == Truncated)
              && (r.Converted? ==> status == Ok(r.warning) && State() == r.tape && firstFileType == r.fileType)
      ensures status == NotValid ==> State() == old(State()) && firstFileType == old(firstFileType)
    {
      if !(|buf| >= 8 && buf[..8] == TsxSignature) {
        return NotValid;
      }
      var pos := FirstBlock;
      var firstFile := true;
      var warning := false;
      while pos < |buf|
        invariant Valid()
        invariant Walk(buf, pos, ids, State(), firstFileType, firstFile, warning)
                    == Walk(buf, FirstBlock, ids, old(State()), old(firstFileType), true, false)
        decreases |buf| - pos
      {
        var cut: bool;
        cut, pos, firstFile, warning := WalkTurn(buf, ids, pos, firstFile, warning);
        if cut {
          return Overrun;
        }
      }
      assert Walk(buf, pos, ids, State(), firstFileType, firstFile, warning) == Converted(State(), firstFileType, warning);
      return Ok(warning);
    }

    /** One turn of the loop of `convert`, against the walk it performs. */
    method WalkTurn(buf: seq<Byte>, ids: KcsIds, pos: nat, firstFile: bool, warning: bool)
      returns (cut: bool, next: nat, firstFile': bool, warning': bool)
      requires Valid() && pos < |buf|
      modifies this
      ensures Valid()
      ensures cut ==> Walk(buf, pos, ids, old(State()), old(firstFileType), firstFile, warning) == Truncated
      ensures !cut ==> pos < next
      ensures !cut ==> Walk(buf, next, ids, State(), firstFileType, firstFile', warning')
                         == Walk(buf, pos, ids, old(State()), old(firstFileType), firstFile, warning)
    {
      ghost var t, fileType := State(), firstFileType;
      WalkStep(buf, pos, ids, t, fileType, firstFile, warning);
      cut, next, firstFile', warning' := ConvertStep(buf, ids, pos, firstFile, warning);
    }

    /** One turn of the block walk of `convert`: the block at `pos`, unless
        the file ends inside it. */
    method ConvertStep(buf: seq<Byte>, ids: KcsIds, pos: nat, firstFile: bool, warning: bool)
      returns (cut: bool, next: nat, firstFile': bool, warning': bool)
      requires Valid() && pos < |buf|
      modifies this
      ensures Valid()
      ensures cut <==> ParseAt(buf, pos).Cut?
      ensures !cut ==>
                var b := ParseAt(buf, pos).block;
                var detect := firstFile && HeaderCandidate(b, pos, |buf|, ids);
                && next == pos + Size(b)
                && State() == Play(old(State()), b)
                && firstFileType == (if detect then FileTypeOf(b.data) else old(firstFileType))
                && firstFile' == (firstFile && !detect)
                && warning' == (warning || b.Unrecognised?)
    {
      acumBytes := 0;
      firstFile', warning' := firstFile, warning;
      var p := ParseAt(buf, pos);
      if p.Cut? {
        return true, pos, firstFile', warning';
      }
      var b := p.block;
      if firstFile && HeaderCandidate(b, pos, |buf|, ids) {
        firstFileType := FileTypeOf(b.data);
        firstFile' := false;
      }
      var n := PlayBlock(b);
      warning' := warning || b.Unrecognised?;
      cut, next := false, pos + n;
    }
  }

  lemma {:induction false} SamplesConcat(a: seq<Level>, b: seq<Level>, tstates: U32)
    ensures Samples(a + b, tstates) == Samples(a, tstates) + Samples(b, tstates)
    decreases |b|
  {
    if |b| == 0 {
      assert a + b == a;
    } else {
      var c := b[..|b| - 1];
      assert (a + b)[..|a + b| - 1] == a + c;
      assert (a + b)[|a + b| - 1] == b[|b| - 1];
      SamplesConcat(a, c, tstates);
    }
  }
}
