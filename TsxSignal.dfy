/*
 * The signal arithmetic of the TZX/TSX cassette image converter in
 * src/cassette/TsxImage.cc: the T-state to sample conversion, pulse trains
 * with alternating level, silences, and the bit encodings of the turbo
 * (ID 10/11) and Kansas City Standard (ID 4B) data blocks.
 */
module TsxSignal {

  /** Samples per second of the converted signal (`OUTPUT_FREQ`). */
  const OutputFreq: nat := 96000
  /** T-states per second of the TZX time base (`TZX_Z80_FREQ`). */
  const Z80Freq: nat := 3500000
  const U32Mod: nat := 0x1_0000_0000

  type Byte = x: int | 0 <= x < 0x100
  type U16 = x: int | 0 <= x < 0x1_0000
  type U32 = x: int | 0 <= x < 0x1_0000_0000
  /** One `int8_t` sample of the converted signal. */
  type Level = x: int | -128 <= x < 128

  /** `tstates2bytes`: the number of samples a duration of `tstates` lasts.
      The product `tstates * 96000` is computed in `uint32_t` and wraps
      before the division; the result always fits the `uint16_t` return
      type, so that cast changes nothing. */
  function TstatesToBytes(tstates: U32): (n: nat)
    ensures n <= 1227
    ensures tstates <= 44739 ==> n == tstates * OutputFreq / Z80Freq
  {
    (tstates * OutputFreq) % U32Mod / Z80Freq
  }

  /** The conversion is exact up to 44739 T-states and wraps just above. */
  lemma TstatesWrap()
    ensures TstatesToBytes(44739) == 1227
    ensures TstatesToBytes(44740) == 0
  {
  }

  /** The number of zero samples `writeSilence(ms)` inserts: `OUTPUT_FREQ*ms`
      is unsigned arithmetic, so `ms` is taken modulo 2^32 and the product
      wraps before the division by 1000. */
  function SilenceCount(ms: int): (n: nat)
    ensures 0 <= ms <= 44739 ==> n == 96 * ms
  {
    (OutputFreq * (ms % U32Mod)) % U32Mod / 1000
  }

  /** `currentValue = -currentValue` on an `int8_t`: -(-128) wraps to -128. */
  function Negate(v: Level): Level
  {
    if v == -128 then -128 else -v
  }

  /** The level after `n` negations. */
  function Flip(v: Level, n: nat): Level
  {
    if n % 2 == 0 then v else Negate(v)
  }

  lemma FlipAdd(v: Level, a: nat, b: nat)
    ensures Flip(Flip(v, a), b) == Flip(v, a + b)
  {
  }

  function Repeat<T>(x: T, n: nat): (s: seq<T>)
    ensures |s| == n
    ensures forall i :: 0 <= i < n ==> s[i] == x
  {
    seq(n, _ => x)
  }

  /** The samples written by consecutive pulses of the given lengths in
      T-states: pulse i lasts `TstatesToBytes(lens[i])` samples at the level
      reached after i negations of `level`. */
  function Render(level: Level, lens: seq<U32>): seq<Level>
    decreases |lens|
  {
    if |lens| == 0 then []
    else
      Render(level, lens[..|lens| - 1])
        + Repeat(Flip(level, |lens| - 1), TstatesToBytes(lens[|lens| - 1]))
  }

  /** Total number of samples of a pulse train. */
  function Duration(lens: seq<U32>): nat
    decreases |lens|
  {
    if |lens| == 0 then 0 else Duration(lens[..|lens| - 1]) + TstatesToBytes(lens[|lens| - 1])
  }

  /** A pulse train lasts as many samples as its pulses add up to. */
  lemma {:induction false} RenderLength(level: Level, lens: seq<U32>)
    ensures |Render(level, lens)| == Duration(lens)
    decreases |lens|
  {
    if |lens| > 0 {
      RenderLength(level, lens[..|lens| - 1]);
    }
  }

  /** Writing two pulse trains one after the other is writing their
      concatenation: the second starts at the level the first left. */
  lemma {:induction false} RenderConcat(level: Level, a: seq<U32>, b: seq<U32>)
    ensures Render(level, a + b) == Render(level, a) + Render(Flip(level, |a|), b)
    decreases |b|
  {
    if |b| == 0 {
      assert a + b == a;
    } else {
      var c := b[..|b| - 1];
      assert (a + b)[..|a + b| - 1] == a + c;
      assert (a + b)[|a + b| - 1] == b[|b| - 1];
      RenderConcat(level, a, c);
      FlipAdd(level, |a|, |c|);
    }
  }

  /** A single pulse: `TstatesToBytes(t)` copies of the level. */
  lemma OnePulse(level: Level, t: U32)
    ensures Render(level, [t]) == Repeat(level, TstatesToBytes(t))
  {
    assert [t][..0] == [];
  }

  // ----- Bits -------------------------------------------------------------

  function Pow2(n: nat): (p: nat)
    ensures p >= 1
  {
    if n == 0 then 1 else 2 * Pow2(n - 1)
  }

  /** Bit k of b, the test `b & (1 << k)` of the converter. */
  function Bit(b: nat, k: nat): bool
  {
    if k == 0 then b % 2 == 1 else Bit(b / 2, k - 1)
  }

  /** The n low bits of b, least significant first. */
  function LsbBits(b: nat, n: nat): (bits: seq<bool>)
    ensures |bits| == n
  {
    if n == 0 then [] else [b % 2 == 1] + LsbBits(b / 2, n - 1)
  }

  /** The number a bit string denotes, least significant bit first. */
  function BitsValue(bits: seq<bool>): nat
  {
    if |bits| == 0 then 0 else (if bits[0] then 1 else 0) + 2 * BitsValue(bits[1..])
  }

  function Reverse<T>(s: seq<T>): (r: seq<T>)
    ensures |r| == |s|
    ensures forall i :: 0 <= i < |s| ==> r[i] == s[|s| - 1 - i]
  {
    seq(|s|, i requires 0 <= i < |s| => s[|s| - 1 - i])
  }

  lemma {:induction false} LsbBitsAt(b: nat, n: nat, k: nat)
    requires k < n
    ensures LsbBits(b, n)[k] == Bit(b, k)
    decreases n
  {
    if k > 0 {
      LsbBitsAt(b / 2, n - 1, k - 1);
    }
  }

  /** Reading back the n low bits of a number below 2^n gives the number. */
  lemma {:induction false} LsbBitsRoundTrip(b: nat, n: nat)
    requires b < Pow2(n)
    ensures BitsValue(LsbBits(b, n)) == b
    decreases n
  {
    if n > 0 {
      LsbBitsRoundTrip(b / 2, n - 1);
      assert LsbBits(b, n)[1..] == LsbBits(b / 2, n - 1);
    }
  }

  /** The eight bits of a byte, least significant first: entry k is the
      mask test `b & (1 << k)`. */
  function Bits8(b: Byte): (r: seq<bool>)
    ensures |r| == 8
  {
    LsbBits(b, 8)
  }

  lemma Bits8At(b: Byte, k: nat)
    requires k < 8
    ensures Bits8(b)[k] == Bit(b, k)
  {
    LsbBitsAt(b, 8, k);
  }

  /** The eight data bits of a byte in the order they are sent: most
      significant first when `msb` is set, least significant first otherwise. */
  function DataBits(b: Byte, msb: bool): (bits: seq<bool>)
  {
    if msb then Reverse(Bits8(b)) else Bits8(b)
  }

  /** Data bit i is the mask test `b & (1 << (7-i))` when sending most
      significant first and `b & (1 << i)` otherwise. */
  lemma DataBitsAt(b: Byte, msb: bool, i: nat)
    requires i < 8
    ensures |DataBits(b, msb)| == 8
    ensures DataBits(b, msb)[i] == if msb then Bit(b, 7 - i) else Bit(b, i)
  {
    if msb {
      Bits8At(b, 7 - i);
    } else {
      Bits8At(b, i);
    }
  }

  /** The data bits carry the byte: a receiver that knows the bit order
      recovers it. */
  lemma DataBitsRoundTrip(b: Byte, msb: bool)
    ensures BitsValue(if msb then Reverse(DataBits(b, msb)) else DataBits(b, msb)) == b
  {
    assert Pow2(8) == 256;
    LsbBitsRoundTrip(b, 8);
    if msb {
      assert Reverse(Reverse(Bits8(b))) == Bits8(b);
    }
  }

  /** Pulse lengths of a bit string: each 0 bit as the pulses `zero`, each 1
      bit as the pulses `one`. */
  function BitPulses(bits: seq<bool>, zero: seq<U32>, one: seq<U32>): seq<U32>
    decreases |bits|
  {
    if |bits| == 0 then []
    else BitPulses(bits[..|bits| - 1], zero, one) + (if bits[|bits| - 1] then one else zero)
  }

  lemma {:induction false} BitPulsesConcat(a: seq<bool>, b: seq<bool>, zero: seq<U32>, one: seq<U32>)
    ensures BitPulses(a + b, zero, one) == BitPulses(a, zero, one) + BitPulses(b, zero, one)
    decreases |b|
  {
    if |b| == 0 {
      assert a + b == a;
    } else {
      var c := b[..|b| - 1];
      assert (a + b)[..|a + b| - 1] == a + c;
      var last := if b[|b| - 1] then one else zero;
      assert (a + b)[|a + b| - 1] == b[|b| - 1];
      assert BitPulses(a + b, zero, one) == BitPulses(a + c, zero, one) + last;
      BitPulsesConcat(a, c, zero, one);
      assert BitPulses(b, zero, one) == BitPulses(c, zero, one) + last;
    }
  }

  // ----- Turbo blocks (ID 10 and 11) -------------------------------------

  /** Bit i of a turbo byte is the test `b & (128 >> i)`, that is
      `b & (1 << (7-i))`: the data bits most significant first, and nothing
      beyond the eighth. */
  function TurboBits(b: Byte, bits: nat): (r: seq<bool>)
    ensures |r| == bits
  {
    seq(bits, i requires 0 <= i < bits => i < 8 && Bits8(b)[7 - i])
  }

  /** A full turbo byte is sent most significant bit first. */
  lemma TurboBitsMsbFirst(b: Byte)
    ensures TurboBits(b, 8) == DataBits(b, true)
  {
    forall i | 0 <= i < 8
      ensures TurboBits(b, 8)[i] == DataBits(b, true)[i]
    {
      Bits8At(b, 7 - i);
      DataBitsAt(b, true, i);
    }
  }

  /** `writeTurboByte`: every bit is two equal pulses, `one` long for a 1
      and `zero` long for a 0. */
  function TurboBytePulses(b: Byte, bits: nat, zero: U16, one: U16): seq<U32>
  {
    BitPulses(TurboBits(b, bits), [zero, zero], [one, one])
  }

  /** The pulses of consecutive turbo bytes. */
  function TurboData(data: seq<Byte>, zero: U16, one: U16): seq<U32>
    decreases |data|
  {
    if |data| == 0 then []
    else TurboData(data[..|data| - 1], zero, one) + TurboBytePulses(data[|data| - 1], 8, zero, one)
  }

  // ----- Kansas City Standard blocks (ID 4B) ------------------------------

  /** The configuration of the last ID 4B block: pulse lengths of the
      pilot, a 1 bit and a 0 bit, pulses per bit, start and stop bits, and
      the data bit order. */
  datatype Kcs = Kcs(pilot: U16, one: U16, zero: U16, numZero: Byte, numOne: Byte,
                     startBits: Byte, startValue: bool, stopBits: Byte, stopValue: bool,
                     msb: bool)

  /** A pulse count nibble of 0 stands for 16. */
  function PulseCount(nibble: nat): Byte
    requires nibble < 16
  {
    if nibble == 0 then 16 else nibble
  }

  /** The ID 4B configuration: zero pulses in the high nibble of `bitcfg`,
      one pulses in its low nibble; start bits, start value, stop bits, stop
      value and bit order in bits 7-6, 5, 4-3, 2 and 0 of `bytecfg`. */
  function DecodeKcs(pilot: U16, bit0len: U16, bit1len: U16, bitcfg: Byte, bytecfg: Byte): (k: Kcs)
    ensures 1 <= k.numZero <= 16 && 1 <= k.numOne <= 16
    ensures k.startBits <= 3 && k.stopBits <= 3
  {
    Kcs(pilot, bit1len, bit0len, PulseCount(bitcfg / 16), PulseCount(bitcfg % 16),
        bytecfg / 64, (bytecfg / 32) % 2 == 1, (bytecfg / 8) % 4, (bytecfg / 4) % 2 == 1,
        bytecfg % 2 == 1)
  }

  /** The `bitcfg` byte a writer stores for the given pulse counts. */
  function EncodeBitcfg(numZero: nat, numOne: nat): Byte
    requires 1 <= numZero <= 16 && 1 <= numOne <= 16
  {
    (numZero % 16) * 16 + numOne % 16
  }

  /** The `bytecfg` byte a writer stores for the given framing (bit 1 unused). */
  function EncodeBytecfg(startBits: nat, startValue: bool, stopBits: nat, stopValue: bool, msb: bool): Byte
    requires startBits <= 3 && stopBits <= 3
  {
    startBits * 64 + (if startValue then 32 else 0) + stopBits * 8
      + (if stopValue then 4 else 0) + (if msb then 1 else 0)
  }

  /** Every pair of pulse counts in 1..16 survives encoding and decoding,
      and every `bitcfg` byte is the encoding of the counts it decodes to. */
  lemma BitcfgRoundTrip(pilot: U16, bit0len: U16, bit1len: U16, bitcfg: Byte, bytecfg: Byte,
                        numZero: nat, numOne: nat)
    requires 1 <= numZero <= 16 && 1 <= numOne <= 16
    ensures var k := DecodeKcs(pilot, bit0len, bit1len, EncodeBitcfg(numZero, numOne), bytecfg);
            k.numZero == numZero && k.numOne == numOne
    ensures var k := DecodeKcs(pilot, bit0len, bit1len, bitcfg, bytecfg);
            EncodeBitcfg(k.numZero, k.numOne) == bitcfg
  {
  }

  /** The framing fields survive encoding and decoding, and decoding keeps
      every bit of `bytecfg` except the unused bit 1. */
  lemma BytecfgRoundTrip(pilot: U16, bit0len: U16, bit1len: U16, bitcfg: Byte, bytecfg: Byte,
                         startBits: nat, startValue: bool, stopBits: nat, stopValue: bool, msb: bool)
    requires startBits <= 3 && stopBits <= 3
    ensures var k := DecodeKcs(pilot, bit0len, bit1len, bitcfg,
                               EncodeBytecfg(startBits, startValue, stopBits, stopValue, msb));
            k.startBits == startBits && k.startValue == startValue && k.stopBits == stopBits
            && k.stopValue == stopValue && k.msb == msb
    ensures var k := DecodeKcs(pilot, bit0len, bit1len, bitcfg, bytecfg);
            EncodeBytecfg(k.startBits, k.startValue, k.stopBits, k.stopValue, k.msb)
              == bytecfg - 2 * ((bytecfg / 2) % 2)
  {
    Fields(EncodeBytecfg(startBits, startValue, stopBits, stopValue, msb), startBits,
           if startValue then 1 else 0, stopBits, if stopValue then 1 else 0, if msb then 1 else 0);
    ByteFields(bytecfg);
  }

  /** The fields of a framing byte assembled from its parts. */
  lemma Fields(x: nat, start: nat, v: nat, stop: nat, w: nat, m: nat)
    requires start <= 3 && v <= 1 && stop <= 3 && w <= 1 && m <= 1
    requires x == start * 64 + v * 32 + stop * 8 + w * 4 + m
    ensures x / 64 == start && (x / 32) % 2 == v && (x / 8) % 4 == stop
    ensures (x / 4) % 2 == w && x % 2 == m
  {
    assert x / 32 == 2 * start + v;
    assert x / 8 == 8 * start + 4 * v + stop;
    assert x / 4 == 16 * start + 8 * v + 2 * stop + w;
  }

  /** A byte is the sum of its framing fields and the unused bit 1. */
  lemma ByteFields(b: Byte)
    ensures b == (b / 64) * 64 + ((b / 32) % 2) * 32 + ((b / 8) % 4) * 8 + ((b / 4) % 2) * 4
                 + ((b / 2) % 2) * 2 + b % 2
  {
    var q1 := b / 2;
    var q2 := q1 / 2;
    var q3 := q2 / 2;
    var q5 := q3 / 4;
    var q6 := q5 / 2;
    assert b / 4 == q2;
    assert b / 8 == q3;
    assert b / 32 == q5;
    assert b / 64 == q6;
  }

  /** The pulses of one bit under a configuration. */
  function KcsZero(k: Kcs): seq<U32> { Repeat(k.zero as U32, k.numZero) }
  function KcsOne(k: Kcs): seq<U32> { Repeat(k.one as U32, k.numOne) }

  /** The bits `writeByte4B` sends for one byte: the start bits, the eight
      data bits in the configured order, then the stop bits. */
  function KcsByteBits(k: Kcs, b: Byte): seq<bool>
  {
    Repeat(k.startValue, k.startBits) + DataBits(b, k.msb) + Repeat(k.stopValue, k.stopBits)
  }

  /** The framing of a sent byte, bit by bit. */
  lemma KcsByteLayout(k: Kcs, b: Byte)
    ensures var bits := KcsByteBits(k, b);
            && |bits| == k.startBits + 8 + k.stopBits
            && (forall i :: 0 <= i < k.startBits ==> bits[i] == k.startValue)
            && (forall i :: k.startBits <= i < k.startBits + 8 ==>
                  bits[i] == if k.msb then Bit(b, 7 - (i - k.startBits)) else Bit(b, i - k.startBits))
            && (forall i :: k.startBits + 8 <= i < |bits| ==> bits[i] == k.stopValue)
  {
    var bits := KcsByteBits(k, b);
    forall i | k.startBits <= i < k.startBits + 8
      ensures bits[i] == if k.msb then Bit(b, 7 - (i - k.startBits)) else Bit(b, i - k.startBits)
    {
      DataBitsAt(b, k.msb, i - k.startBits);
    }
  }

  /** The start and stop bits of a sent byte. */
  lemma KcsFramingBits(k: Kcs, b: Byte)
    ensures |KcsByteBits(k, b)| == k.startBits + 8 + k.stopBits
    ensures forall i :: 0 <= i < k.startBits ==> KcsByteBits(k, b)[i] == k.startValue
    ensures forall i :: k.startBits + 8 <= i < k.startBits + 8 + k.stopBits ==> KcsByteBits(k, b)[i] == k.stopValue
  {
  }

  /** Data bit i of a sent byte. */
  lemma KcsDataBitAt(k: Kcs, b: Byte, i: nat)
    requires i < 8
    ensures k.startBits + i < |KcsByteBits(k, b)|
    ensures KcsByteBits(k, b)[k.startBits + i] == if k.msb then Bits8(b)[7 - i] else Bits8(b)[i]
  {
  }

  function KcsBytePulses(k: Kcs, b: Byte): seq<U32>
  {
    BitPulses(KcsByteBits(k, b), KcsZero(k), KcsOne(k))
  }

  /** The pulses of consecutive ID 4B bytes. */
  function KcsData(k: Kcs, data: seq<Byte>): seq<U32>
    decreases |data|
  {
    if |data| == 0 then []
    else KcsData(k, data[..|data| - 1]) + KcsBytePulses(k, data[|data| - 1])
  }

  // ----- The converter's signal state -------------------------------------

  /** What the converter has produced so far: the samples, the level of the
      next pulse, whether an ID 2B block fixed that level, and the ID 4B
      configuration in force. */
  datatype Tape = Tape(output: seq<Level>, level: Level, phaseChanged: bool, kcs: Kcs)

  /** Writing a pulse train. */
  function Emit(t: Tape, lens: seq<U32>): Tape
  {
    t.(output := t.output + Render(t.level, lens), level := Flip(t.level, |lens|))
  }

  /** `writePulse(t)` appends `TstatesToBytes(t)` samples of the current
      level and then negates the level. */
  lemma EmitPulse(t: Tape, x: U32)
    ensures Emit(t, [x]).output == t.output + Repeat(t.level, TstatesToBytes(x))
    ensures Emit(t, [x]).level == Negate(t.level)
    ensures Emit(t, [x]).phaseChanged == t.phaseChanged && Emit(t, [x]).kcs == t.kcs
  {
    OnePulse(t.level, x);
  }

  lemma EmitConcat(t: Tape, a: seq<U32>, b: seq<U32>)
    ensures Emit(Emit(t, a), b) == Emit(t, a + b)
  {
    RenderConcat(t.level, a, b);
    FlipAdd(t.level, |a|, |b|);
  }

  /** `writeSilence(ms)`: nothing for 0 ms, otherwise `SilenceCount(ms)`
      zero samples, after which the next pulse starts high. */
  function Silence(t: Tape, ms: int): Tape
  {
    if ms == 0 then t else t.(output := t.output + Repeat(0, SilenceCount(ms)), level := 127)
  }

  lemma SilenceEffect(t: Tape, ms: int)
    ensures ms == 0 ==> Silence(t, ms) == t
    ensures 0 < ms <= 44739 ==>
              Silence(t, ms).output == t.output + Repeat(0, 96 * ms) && Silence(t, ms).level == 127
    ensures Silence(t, ms).phaseChanged == t.phaseChanged && Silence(t, ms).kcs == t.kcs
  {
  }

  /** `writeSample` once per level, each for `tstates` T-states, without
      touching the level of the next pulse. */
  function Samples(levels: seq<Level>, tstates: U32): seq<Level>
    decreases |levels|
  {
    if |levels| == 0 then []
    else Samples(levels[..|levels| - 1], tstates) + Repeat(levels[|levels| - 1], TstatesToBytes(tstates))
  }

  lemma {:induction false} SamplesLength(levels: seq<Level>, tstates: U32)
    ensures |Samples(levels, tstates)| == |levels| * TstatesToBytes(tstates)
    decreases |levels|
  {
    if |levels| > 0 {
      SamplesLength(levels[..|levels| - 1], tstates);
    }
  }
}
