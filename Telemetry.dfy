/**
 * The integer part of the input pump's record handler: the fixed-offset
 * fields of a tracker record, the packed 21-bit sensor triplets, the clamp
 * of the sample count, and the 16-bit timestamp bookkeeping that decides
 * whether a catch-up sample covers ticks the device skipped.
 */
module Telemetry {
  import opened Wrappers
  import opened JsBits
  import opened ByteData

  const Two20: int := 0x10_0000
  const Two21: int := 0x20_0000

  datatype Vec3 = Vec3(x: int, y: int, z: int)

  // The three 21-bit fields packed, most significant bit first, into the
  // eight bytes at o (bit 0 of the last byte is unused).

  function PackedX(data: seq<byte>, o: int): (v: nat)
    ensures v < Two21
  {
    ByteAt(data, o) * 0x2000 + ByteAt(data, o + 1) * 0x20 + ByteAt(data, o + 2) / 8
  }

  function PackedY(data: seq<byte>, o: int): (v: nat)
    ensures v < Two21
  {
    ByteAt(data, o + 2) % 8 * 0x4_0000 + ByteAt(data, o + 3) * 0x400 + ByteAt(data, o + 4) * 4 + ByteAt(data, o + 5) / 64
  }

  function PackedZ(data: seq<byte>, o: int): (v: nat)
    ensures v < Two21
  {
    ByteAt(data, o + 5) % 64 * 0x8000 + ByteAt(data, o + 6) * 0x80 + ByteAt(data, o + 7) / 2
  }

  /** `(data[o] << 13) | (data[o + 1] << 5) | ((data[o + 2] & 0xF8) >> 3)` */
  lemma PackedXAsWritten(data: seq<byte>, o: int)
    ensures BitOr(BitOr(Shl(ByteAt(data, o), 13), Shl(ByteAt(data, o + 1), 5)),
                  Sar(BitAnd(ByteAt(data, o + 2), 0xF8), 3)) == PackedX(data, o)
  {
    HighFieldBits(ByteAt(data, o), ByteAt(data, o + 1), ByteAt(data, o + 2));
  }

  lemma HighFieldBits(d0: nat, d1: nat, d2: nat)
    requires d0 < 0x100 && d1 < 0x100 && d2 < 0x100
    ensures BitOr(BitOr(Shl(d0, 13), Shl(d1, 5)), Sar(BitAnd(d2, 0xF8), 3)) == d0 * 0x2000 + d1 * 0x20 + d2 / 8
  {
    var hi := HighFieldTop(d0, d1);
    var lo := Sar(BitAnd(d2, 0xF8), 3);
    assert lo == d2 / 8 by {
      Pow2Values();
      MaskHighFive(d2);
      SarBy(d2 / 8, 3, 8);
    }
    assert BitOr(hi, lo) == hi + lo by {
      Pow2Values();
      OrBy(d0 * 0x100 + d1, hi, lo, 5, 0x20);
    }
  }

  /** `d & 0xF8` clears the three low bits of a byte. */
  lemma MaskHighFive(d: nat)
    requires d < 0x100
    ensures BitAnd(d, 0xF8) == d / 8 * 8
  {
    Pow2Values();
    assert d == d / 8 * 8 + d % 8;
    AndOfHighMask(d / 8, d % 8, 5, 3);
  }

  /** `d & 0xC0` keeps the two high bits of a byte. */
  lemma MaskHighTwo(d: nat)
    requires d < 0x100
    ensures BitAnd(d, 0xC0) == d / 64 * 64
  {
    Pow2Values();
    assert d == d / 64 * 64 + d % 64;
    AndOfHighMask(d / 64, d % 64, 2, 6);
  }

  lemma HighFieldTop(d0: nat, d1: nat) returns (hi: nat)
    requires d0 < 0x100 && d1 < 0x100
    ensures hi == BitOr(Shl(d0, 13), Shl(d1, 5))
    ensures hi == d0 * 0x2000 + d1 * 0x20
  {
    Pow2Values();
    ShlBy(d0, 13, 0x2000);
    ShlBy(d1, 5, 0x20);
    OrBy(d0, d0 * 0x2000, d1 * 0x20, 13, 0x2000);
    hi := d0 * 0x2000 + d1 * 0x20;
  }

  /** `((data[o + 2] & 0x07) << 18) | (data[o + 3] << 10) | (data[o + 4] << 2) | ((data[o + 5] & 0xC0) >> 6)` */
  lemma PackedYAsWritten(data: seq<byte>, o: int)
    ensures BitOr(BitOr(BitOr(Shl(BitAnd(ByteAt(data, o + 2), 0x07), 18), Shl(ByteAt(data, o + 3), 10)),
                        Shl(ByteAt(data, o + 4), 2)),
                  Sar(BitAnd(ByteAt(data, o + 5), 0xC0), 6)) == PackedY(data, o)
  {
    MiddleFieldBits(ByteAt(data, o + 2), ByteAt(data, o + 3), ByteAt(data, o + 4), ByteAt(data, o + 5));
  }

  lemma MiddleFieldBits(d2: nat, d3: nat, d4: nat, d5: nat)
    requires d2 < 0x100 && d3 < 0x100 && d4 < 0x100 && d5 < 0x100
    ensures BitOr(BitOr(BitOr(Shl(BitAnd(d2, 0x07), 18), Shl(d3, 10)), Shl(d4, 2)), Sar(BitAnd(d5, 0xC0), 6))
            == d2 % 8 * 0x4_0000 + d3 * 0x400 + d4 * 4 + d5 / 64
  {
    var hi := MiddleFieldTop(d2, d3, d4);
    var lo := Sar(BitAnd(d5, 0xC0), 6);
    assert lo == d5 / 64 by {
      Pow2Values();
      MaskHighTwo(d5);
      SarBy(d5 / 64, 6, 64);
    }
    assert BitOr(hi, lo) == hi + lo by {
      Pow2Values();
      OrBy(d2 % 8 * 0x1_0000 + d3 * 0x100 + d4, hi, lo, 2, 4);
    }
  }

  lemma MiddleFieldTop(d2: nat, d3: nat, d4: nat) returns (hi: nat)
    requires d2 < 0x100 && d3 < 0x100 && d4 < 0x100
    ensures hi == BitOr(BitOr(Shl(BitAnd(d2, 0x07), 18), Shl(d3, 10)), Shl(d4, 2))
    ensures hi == d2 % 8 * 0x4_0000 + d3 * 0x400 + d4 * 4
  {
    var top := MiddleFieldTopTwo(d2, d3);
    var lo := Shl(d4, 2);
    assert lo == d4 * 4 by {
      Pow2Values();
      ShlBy(d4, 2, 4);
    }
    assert BitOr(top, lo) == top + lo by {
      Pow2Values();
      OrBy(d2 % 8 * 0x100 + d3, top, lo, 10, 0x400);
    }
    hi := top + lo;
  }

  lemma MiddleFieldTopTwo(d2: nat, d3: nat) returns (hi: nat)
    requires d2 < 0x100 && d3 < 0x100
    ensures hi == BitOr(Shl(BitAnd(d2, 0x07), 18), Shl(d3, 10))
    ensures hi == d2 % 8 * 0x4_0000 + d3 * 0x400
  {
    Pow2Values();
    var a := d2 % 8;
    AndLowBy(d2, 3, 8);
    ShlBy(a, 18, 0x4_0000);
    ShlBy(d3, 10, 0x400);
    OrBy(a, a * 0x4_0000, d3 * 0x400, 18, 0x4_0000);
    hi := a * 0x4_0000 + d3 * 0x400;
  }

  /** `((data[o + 5] & 0x3F) << 15) | (data[o + 6] << 7) | (data[o + 7] >> 1)` */
  lemma PackedZAsWritten(data: seq<byte>, o: int)
    ensures BitOr(BitOr(Shl(BitAnd(ByteAt(data, o + 5), 0x3F), 15), Shl(ByteAt(data, o + 6), 7)),
                  Sar(ByteAt(data, o + 7), 1)) == PackedZ(data, o)
  {
    LowFieldBits(ByteAt(data, o + 5), ByteAt(data, o + 6), ByteAt(data, o + 7));
  }

  lemma LowFieldBits(d5: nat, d6: nat, d7: nat)
    requires d5 < 0x100 && d6 < 0x100 && d7 < 0x100
    ensures BitOr(BitOr(Shl(BitAnd(d5, 0x3F), 15), Shl(d6, 7)), Sar(d7, 1)) == d5 % 64 * 0x8000 + d6 * 0x80 + d7 / 2
  {
    var hi := LowFieldTop(d5, d6);
    var lo := Sar(d7, 1);
    assert lo == d7 / 2 by {
      SarSmall(d7, 1);
    }
    assert BitOr(hi, lo) == hi + lo by {
      Pow2Values();
      OrBy(d5 % 64 * 0x100 + d6, hi, lo, 7, 0x80);
    }
  }

  lemma LowFieldTop(d5: nat, d6: nat) returns (hi: nat)
    requires d5 < 0x100 && d6 < 0x100
    ensures hi == BitOr(Shl(BitAnd(d5, 0x3F), 15), Shl(d6, 7))
    ensures hi == d5 % 64 * 0x8000 + d6 * 0x80
  {
    Pow2Values();
    var a := d5 % 64;
    AndLowBy(d5, 6, 64);
    ShlBy(a, 15, 0x8000);
    ShlBy(d6, 7, 0x80);
    OrBy(a, a * 0x8000, d6 * 0x80, 15, 0x8000);
    hi := a * 0x8000 + d6 * 0x80;
  }

  /** The low 21 bits of v read as a two's-complement number. */
  function SignExtend21(v: int): (r: int)
    ensures -Two20 <= r < Two20
    ensures (v - r) % Two21 == 0
  {
    var low := v % Two21;
    if low >= Two20 then low - Two21 else low
  }

  /** The driver's `(v << 11) >> 11` on a 21-bit field is SignExtend21. */
  lemma SignExtend21AsWritten(v: nat)
    requires v < Two21
    ensures Sar(Shl(v, 11), 11) == SignExtend21(v)
  {
    Pow2Values();
    if v >= Two20 {
      assert Shl(v, 11) == (v - Two21) * 2048;
      assert Sar((v - Two21) * 2048, 11) == v - Two21;
    } else {
      Int32OfSmall(v * 2048);
      assert Shl(v, 11) == v * 2048;
    }
  }

  /** The two boundary cases: all 21 bits set is -1, and 1 stays 1. */
  lemma SignExtend21Examples()
    ensures Sar(Shl(0x1F_FFFF, 11), 11) == -1 && Sar(Shl(1, 11), 11) == 1
  {
    SignExtend21AsWritten(0x1F_FFFF);
    SignExtend21AsWritten(1);
  }

  /** `decodeSensorData`: the three packed fields, sign-extended. */
  function DecodeSensorData(data: seq<byte>, o: int): (r: Vec3)
    ensures InRange21(r)
  {
    Vec3(SignExtend21(PackedX(data, o)), SignExtend21(PackedY(data, o)), SignExtend21(PackedZ(data, o)))
  }

  predicate InRange21(v: Vec3) {
    -Two20 <= v.x < Two20 && -Two20 <= v.y < Two20 && -Two20 <= v.z < Two20
  }

  /** The eight bytes the device sends for a triplet. */
  function PackSensorData(v: Vec3): (s: seq<byte>)
    ensures |s| == 8
  {
    var ux, uy, uz := v.x % Two21, v.y % Two21, v.z % Two21;
    [ux / 0x2000, ux / 0x20 % 0x100, ux % 0x20 * 8 + uy / 0x4_0000,
     uy / 0x400 % 0x100, uy / 4 % 0x100, uy % 4 * 64 + uz / 0x8000,
     uz / 0x80 % 0x100, uz % 0x80 * 2]
  }

  lemma SplitHigh(u: nat)
    requires u < Two21
    ensures u / 0x2000 * 0x2000 + u / 0x20 % 0x100 * 0x20 + u % 0x20 == u
  {
    var q := u / 0x20;
    assert u == q * 0x20 + u % 0x20;
    ModUnique(u, 0x2000, q / 0x100, q % 0x100 * 0x20 + u % 0x20);
  }

  lemma SplitMiddle(u: nat)
    requires u < Two21
    ensures u / 0x4_0000 * 0x4_0000 + u / 0x400 % 0x100 * 0x400 + u / 4 % 0x100 * 4 + u % 4 == u
  {
    var q := u / 4;
    assert u == q * 4 + u % 4;
    var p := q / 0x100;
    assert q == p * 0x100 + q % 0x100;
    ModUnique(u, 0x400, p, q % 0x100 * 4 + u % 4);
    ModUnique(u, 0x4_0000, p / 0x100, p % 0x100 * 0x400 + q % 0x100 * 4 + u % 4);
  }

  lemma SplitLow(u: nat)
    requires u < Two21
    ensures u / 0x8000 * 0x8000 + u / 0x80 % 0x100 * 0x80 + u % 0x80 == u
  {
    var q := u / 0x80;
    assert u == q * 0x80 + u % 0x80;
    ModUnique(u, 0x8000, q / 0x100, q % 0x100 * 0x80 + u % 0x80);
  }

  lemma PackedFieldsOfPack(data: seq<byte>, o: int, v: Vec3)
    requires HoldsAt(data, o, PackSensorData(v))
    ensures PackedX(data, o) == v.x % Two21
    ensures PackedY(data, o) == v.y % Two21
    ensures PackedZ(data, o) == v.z % Two21
  {
    var s := PackSensorData(v);
    var ux, uy, uz := v.x % Two21, v.y % Two21, v.z % Two21;
    assert ByteAt(data, o) == s[0] && ByteAt(data, o + 1) == s[1] && ByteAt(data, o + 2) == s[2];
    assert ByteAt(data, o + 3) == s[3] && ByteAt(data, o + 4) == s[4] && ByteAt(data, o + 5) == s[5];
    assert ByteAt(data, o + 6) == s[6] && ByteAt(data, o + 7) == s[7];
    assert s[2] / 8 == ux % 0x20 && s[2] % 8 == uy / 0x4_0000;
    assert s[5] / 64 == uy % 4 && s[5] % 64 == uz / 0x8000;
    assert s[7] / 2 == uz % 0x80;
    SplitHigh(ux);
    SplitMiddle(uy);
    SplitLow(uz);
  }

  /** A triplet of 21-bit values survives packing and `decodeSensorData`. */
  lemma SensorDataRoundTrip(data: seq<byte>, o: int, v: Vec3)
    requires InRange21(v)
    requires HoldsAt(data, o, PackSensorData(v))
    ensures DecodeSensorData(data, o) == v
  {
    PackedFieldsOfPack(data, o, v);
    SignExtendOfLowBits(v.x);
    SignExtendOfLowBits(v.y);
    SignExtendOfLowBits(v.z);
  }

  lemma SignExtendOfLowBits(x: int)
    requires -Two20 <= x < Two20
    ensures SignExtend21(x % Two21) == x
  {
    if x < 0 {
      ModUnique(x, Two21, -1, x + Two21);
    } else {
      ModUnique(x, Two21, 0, x);
    }
    ModUnique(x % Two21, Two21, 0, x % Two21);
  }

  datatype Sample = Sample(accel: Vec3, gyro: Vec3)

  /** The integer fields of a tracker record (the temperature and the magnetometer left unscaled). */
  datatype Message = Message(
    sampleCount: byte,
    timestamp: uint16,
    lastCommandId: uint16,
    temperature: int,
    samples: seq<Sample>,
    magX: int,
    magY: int,
    magZ: int)

  /** At most three samples are decoded, whatever the count byte says. */
  function IterationCount(sampleCount: byte): (n: nat)
    ensures n <= 3 && n <= sampleCount
    ensures n == 3 || n == sampleCount
  {
    if sampleCount > 2 then 3 else sampleCount
  }

  /** Sample n: an acceleration triplet at 8 + 16n and a rotation triplet at 16 + 16n. */
  function SampleAt(data: seq<byte>, n: nat): Sample {
    Sample(DecodeSensorData(data, 8 + 16 * n), DecodeSensorData(data, 16 + 16 * n))
  }

  /** The first `count` samples of a record, in order. */
  function Samples(data: seq<byte>, count: nat): (r: seq<Sample>)
    ensures |r| == count
    ensures forall k :: 0 <= k < count ==> r[k] == SampleAt(data, k)
  {
    if count == 0 then [] else Samples(data, count - 1) + [SampleAt(data, count - 1)]
  }

  function MessageOf(data: seq<byte>): (m: Message)
    ensures |m.samples| == IterationCount(m.sampleCount)
  {
    var count := ByteAt(data, 1);
    Message(count, DecodeUint16(data, 2), DecodeUint16(data, 4), DecodeInt16(data, 6),
            Samples(data, IterationCount(count)),
            DecodeInt16(data, 56), DecodeInt16(data, 58), DecodeInt16(data, 60))
  }

  /** The record handler's message and its sample loop. */
  method DecodeMessage(data: seq<byte>) returns (m: Message)
    ensures m == MessageOf(data)
    ensures forall n :: 0 <= n < |m.samples| ==> m.samples[n] == SampleAt(data, n)
  {
    var sampleCount := ByteAt(data, 1);
    var iterationCount := if sampleCount > 2 then 3 else sampleCount;
    var samples: seq<Sample> := [];
    var n := 0;
    while n < iterationCount
      invariant 0 <= n <= iterationCount
      invariant samples == Samples(data, n)
    {
      samples := samples + [Sample(DecodeSensorData(data, 8 + 16 * n), DecodeSensorData(data, 16 + 16 * n))];
      n := n + 1;
    }
    m := Message(sampleCount, DecodeUint16(data, 2), DecodeUint16(data, 4), DecodeInt16(data, 6), samples,
                 DecodeInt16(data, 56), DecodeInt16(data, 58), DecodeInt16(data, 60));
  }

  /** The ticks from `last` to `ts` on the 16-bit clock. */
  function TimestampDelta(ts: uint16, last: uint16): int {
    if ts < last then (ts + 0x1_0000) - last else ts - last
  }

  lemma TimestampDeltaWraps(ts: uint16, last: uint16)
    ensures 0 <= TimestampDelta(ts, last) < 0x1_0000
    ensures TimestampDelta(ts, last) == (ts - last) % 0x1_0000
  {
    if ts < last {
      ModUnique(ts - last, 0x1_0000, -1, ts + 0x1_0000 - last);
    } else {
      ModUnique(ts - last, 0x1_0000, 0, ts - last);
    }
  }

  /** What the handler remembers between records. */
  datatype PumpState = PumpState(lastTimestamp: uint16, lastSampleCount: byte)

  /**
   * The catch-up sample: when a timestamp was stored (0 counts as none)
   * and the clock moved on by more than the last record's samples but by
   * at most 254 ticks, the difference is covered by one sample.
   */
  function CatchUpTicks(ts: uint16, last: PumpState): Option<nat> {
    if last.lastTimestamp != 0 then
      var delta := TimestampDelta(ts, last.lastTimestamp);
      if delta > last.lastSampleCount && delta <= 254 then Some(delta - last.lastSampleCount) else None
    else None
  }

  lemma CatchUpCondition(ts: uint16, last: PumpState)
    ensures CatchUpTicks(ts, last).Some?
            <==> last.lastTimestamp != 0
                 && last.lastSampleCount < (ts - last.lastTimestamp) % 0x1_0000 <= 254
    ensures CatchUpTicks(ts, last).Some? ==>
              var k := CatchUpTicks(ts, last).value;
              1 <= k <= 254 && k + last.lastSampleCount == (ts - last.lastTimestamp) % 0x1_0000
  {
    TimestampDeltaWraps(ts, last.lastTimestamp);
  }

  /** 65530 to 10 is 16 ticks across the wrap; two of them were covered by the last record's samples. */
  lemma CatchUpExample()
    ensures CatchUpTicks(10, PumpState(65530, 2)) == Some(14)
  {
  }

  /** What one record produces: the catch-up ticks, the message, the state kept, and whether the pump goes on. */
  datatype RecordOutcome = RecordOutcome(catchUp: Option<nat>, message: Message, next: PumpState, pumpContinues: bool)

  /**
   * One record.  The stored state becomes the record's timestamp and its
   * unclamped sample count.  A record with no samples leaves `sensors`
   * null, the handler throws after the state update, and the pump stops.
   */
  function HandleRecordOf(data: seq<byte>, last: PumpState): (r: RecordOutcome)
    ensures r.next == PumpState(r.message.timestamp, r.message.sampleCount)
    ensures r.pumpContinues <==> r.message.sampleCount > 0
    ensures |r.message.samples| == if r.message.sampleCount > 2 then 3 else r.message.sampleCount
    ensures r.catchUp == CatchUpTicks(r.message.timestamp, last)
  {
    var m := MessageOf(data);
    RecordOutcome(CatchUpTicks(m.timestamp, last), m, PumpState(m.timestamp, m.sampleCount),
                  IterationCount(m.sampleCount) > 0)
  }

  /** The first record after claiming the interface never gets a catch-up sample. */
  lemma FirstRecordNoCatchUp(data: seq<byte>)
    ensures HandleRecordOf(data, PumpState(0, 0)).catchUp == None
  {
  }

  /** The record handler's closure: `lastTimestamp` and `lastSampleCount` live across records. */
  class TelemetryPump {
    var lastTimestamp: uint16
    var lastSampleCount: byte

    constructor ()
      ensures lastTimestamp == 0 && lastSampleCount == 0
    {
      lastTimestamp := 0;
      lastSampleCount := 0;
    }

    function State(): PumpState
      reads this
    {
      PumpState(lastTimestamp, lastSampleCount)
    }

    method HandleRecord(data: seq<byte>) returns (catchUp: Option<nat>, message: Message, pumpContinues: bool)
      modifies this
      ensures RecordOutcome(catchUp, message, State(), pumpContinues) == HandleRecordOf(data, old(State()))
    {
      ghost var last := State();
      message := DecodeMessage(data);
      catchUp := None;
      if lastTimestamp != 0 {
        var timestampDelta := if message.timestamp < lastTimestamp
          then (message.timestamp + 0x1_0000) - lastTimestamp
          else message.timestamp - lastTimestamp;
        if timestampDelta > lastSampleCount && timestampDelta <= 254 {
          catchUp := Some(timestampDelta - lastSampleCount);
        }
      }
      assert catchUp == CatchUpTicks(message.timestamp, last);
      lastTimestamp := message.timestamp;
      lastSampleCount := message.sampleCount;
      pumpContinues := |message.samples| > 0;
    }
  }
}
