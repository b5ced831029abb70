/**
 * The integer parts of the feature reports the driver reads and writes:
 * `SensorRange` (report 4), the integer header of `HmdInfo` (report 9) and
 * the keep-alive payload (report 8).  The reports read back start with
 * their report ID; the keep-alive payload starts with two zero bytes.
 */
module FeatureReports {
  import opened JsBits
  import opened ByteData

  const SensorRangeReportId: byte := 4
  const HmdInfoReportId: byte := 9

  /** `new SensorRange(data)`. */
  datatype SensorRange = SensorRange(commandId: uint16, accelScale: byte, gyroScale: uint16, magScale: uint16)

  function SensorRangeOf(data: seq<byte>): SensorRange {
    SensorRange(DecodeUint16(data, 1), ByteAt(data, 3), DecodeUint16(data, 4), DecodeUint16(data, 6))
  }

  /** The 8-byte report that carries r. */
  function SensorRangeBytes(r: SensorRange): (s: seq<byte>)
    ensures |s| == 8
  {
    [SensorRangeReportId] + Uint16Bytes(r.commandId) + [r.accelScale] + Uint16Bytes(r.gyroScale) + Uint16Bytes(r.magScale)
  }

  /** The command id is read inline as `data[1] | (data[2] << 8)`, the little-endian pair at 1. */
  lemma CommandIdAsWritten(data: seq<byte>)
    ensures BitOr(ByteAt(data, 1), Shl(ByteAt(data, 2), 8)) == SensorRangeOf(data).commandId
    ensures BitOr(ByteAt(data, 1), Shl(ByteAt(data, 2), 8)) == HmdInfoOf(data).commandId
  {
    DecodeUint16AsWritten(data, 1);
  }

  /** Every field of a sensor-range report is read back from where the report layout puts it. */
  lemma SensorRangeRoundTrip(data: seq<byte>, r: SensorRange)
    requires HoldsAt(data, 0, SensorRangeBytes(r))
    ensures SensorRangeOf(data) == r
  {
    var b := SensorRangeBytes(r);
    HeaderFields(data, b, r.commandId, r.accelScale, r.gyroScale, r.magScale);
  }

  /** `new HmdInfo(data)`, its integer fields; the physical sizes and distortion terms are floats. */
  datatype HmdInfo = HmdInfo(commandId: uint16, distortionType: byte, resolutionHorz: uint16, resolutionVert: uint16)

  function HmdInfoOf(data: seq<byte>): HmdInfo {
    HmdInfo(DecodeUint16(data, 1), ByteAt(data, 3), DecodeUint16(data, 4), DecodeUint16(data, 6))
  }

  /** The first 8 bytes of the report that carries h. */
  function HmdInfoHeader(h: HmdInfo): (s: seq<byte>)
    ensures |s| == 8
  {
    [HmdInfoReportId] + Uint16Bytes(h.commandId) + [h.distortionType] + Uint16Bytes(h.resolutionHorz) + Uint16Bytes(h.resolutionVert)
  }

  /** Whatever follows the header, the integer fields are read back from it. */
  lemma HmdInfoRoundTrip(data: seq<byte>, h: HmdInfo)
    requires HoldsAt(data, 0, HmdInfoHeader(h))
    ensures HmdInfoOf(data) == h
  {
    var b := HmdInfoHeader(h);
    HeaderFields(data, b, h.commandId, h.distortionType, h.resolutionHorz, h.resolutionVert);
  }

  /** Both reports lay out a 16-bit value at 1, a byte at 3 and 16-bit values at 4 and 6. */
  lemma HeaderFields(data: seq<byte>, b: seq<byte>, w1: uint16, b3: byte, w4: uint16, w6: uint16)
    requires |b| == 8 && b[1..3] == Uint16Bytes(w1) && b[3] == b3 && b[4..6] == Uint16Bytes(w4) && b[6..8] == Uint16Bytes(w6)
    requires HoldsAt(data, 0, b)
    ensures DecodeUint16(data, 1) == w1 && ByteAt(data, 3) == b3
    ensures DecodeUint16(data, 4) == w4 && DecodeUint16(data, 6) == w6
  {
    assert ByteAt(data, 3) == b[3];
    assert ByteAt(data, 1) == b[1] && ByteAt(data, 2) == b[2];
    assert ByteAt(data, 4) == b[4] && ByteAt(data, 5) == b[5];
    assert ByteAt(data, 6) == b[6] && ByteAt(data, 7) == b[7];
    assert b[1] == Uint16Bytes(w1)[0] && b[2] == Uint16Bytes(w1)[1];
    assert b[4] == Uint16Bytes(w4)[0] && b[5] == Uint16Bytes(w4)[1];
    assert b[6] == Uint16Bytes(w6)[0] && b[7] == Uint16Bytes(w6)[1];
  }

  /** A store into a `Uint8Array` keeps the value modulo 2^8. */
  function ToUint8(x: int): byte {
    x % 0x100
  }

  /** `setSensorKeepAlive`'s payload: zeros, then `intervalMs & 0xFF` and `intervalMs >> 8` stored as bytes. */
  function KeepAlivePayload(intervalMs: int): (s: seq<byte>)
    ensures |s| == 4
  {
    [0, 0, ToUint8(BitAnd(intervalMs, 0xFF)), ToUint8(Sar(intervalMs, 8))]
  }

  /** The mask keeps the interval's low byte, for every integer interval. */
  lemma LowByteStored(ms: int)
    ensures ToUint8(BitAnd(ms, 0xFF)) == ms % 0x100
  {
    var u := ToUint32(ms);
    var c := (ms - u) / Two32;
    assert ms == u + Two32 * c;
    assert NatAnd(u, 0xFF) == u % 0x100 by {
      Pow2Values();
      AndLowMask(u, 8);
    }
    Int32OfSmall(u % 0x100);
    ModUnique(ms, 0x100, u / 0x100 + 0x100_0000 * c, u % 0x100);
  }

  /** The shift and the byte store keep the interval's second byte, for every integer interval. */
  lemma HighByteStored(ms: int)
    ensures ToUint8(Sar(ms, 8)) == ms / 0x100 % 0x100
  {
    var i := ToInt32(ms);
    var c := (ms - i) / Two32;
    assert ms == i + Two32 * c;
    assert Sar(ms, 8) == i / 0x100 by {
      Pow2Values();
    }
    var q := i / 0x100;
    assert i == 0x100 * q + i % 0x100;
    ModUnique(ms, 0x100, q + 0x100_0000 * c, i % 0x100);
    assert q == 0x100 * (q / 0x100) + q % 0x100;
    ModUnique(q + 0x100_0000 * c, 0x100, q / 0x100 + 0x1_0000 * c, q % 0x100);
  }

  /** A low byte and the next byte of a number make its remainder modulo 2^16. */
  lemma TwoLowBytes(ms: int)
    ensures ms % 0x100 + 0x100 * (ms / 0x100 % 0x100) == ms % 0x1_0000
  {
    var q, r := ms / 0x100, ms % 0x100;
    assert ms == 0x100 * q + r;
    var q2, r2 := q / 0x100, q % 0x100;
    assert q == 0x100 * q2 + r2;
    ModUnique(ms, 0x1_0000, q2, 0x100 * r2 + r);
  }

  /** The payload is two zero bytes, then the interval's low byte and its second byte. */
  lemma KeepAliveBytes(intervalMs: int)
    ensures KeepAlivePayload(intervalMs) == [0, 0, intervalMs % 0x100, intervalMs / 0x100 % 0x100]
  {
    LowByteStored(intervalMs);
    HighByteStored(intervalMs);
  }

  /** Bytes 2 and 3 of the payload carry the interval modulo 2^16, little-endian. */
  lemma KeepAliveInterval(intervalMs: int)
    ensures KeepAlivePayload(intervalMs)[..2] == [0, 0]
    ensures DecodeUint16(KeepAlivePayload(intervalMs), 2) == intervalMs % 0x1_0000
  {
    KeepAliveBytes(intervalMs);
    TwoLowBytes(intervalMs);
  }

  /** An interval that fits in 16 bits is carried exactly. */
  lemma KeepAliveRoundTrip(intervalMs: int)
    requires 0 <= intervalMs < 0x1_0000
    ensures DecodeUint16(KeepAlivePayload(intervalMs), 2) == intervalMs
  {
    KeepAliveInterval(intervalMs);
    ModUnique(intervalMs, 0x1_0000, 0, intervalMs);
  }

  /** The ten-second keep-alive the driver sends: 10000 is 0x2710. */
  lemma TenSecondKeepAlive()
    ensures KeepAlivePayload(10 * 1000) == [0, 0, 0x10, 0x27]
  {
    var intervalMs := 10 * 1000;
    assert intervalMs % 0x100 == 0x10 && intervalMs / 0x100 % 0x100 == 0x27;
    KeepAliveBytes(intervalMs);
  }
}
