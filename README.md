# USB head-tracker driver: descriptor, report and telemetry decoding

This project models the byte-level core of an experimental Chrome-app driver for a USB head tracker. That core is `experimental/usb-driver/driver.js`. It covers the following:

- **Standard descriptors.** These are the endpoint, HID, interface, configuration and device descriptor parsers (USB 2.0 sections 9.6.1, 9.6.3, 9.6.5 and 9.6.6; HID 1.11 section 6.2.1), along with `getBcdString`.
  - Each parser walks a cursor through a byte buffer.
  - A failed header `assert` is the error path.
- **HID report descriptor.** The short-item walk of `HidReportDescriptor` (HID 1.11 section 6.2.2) keeps:
  - its global registers and the `usage` register;
  - a stack of collections;
  - a flat list of reports.

  After the walk it computes `totalSize` for each report.
- **Telemetry records.** This covers `decodeUint16`, `decodeInt16`, the 21-bit packed and sign-extended sensor triplets, the clamp to three samples, and the 16-bit timestamp gap with its catch-up decision.
- **The `SensorFilter` ring buffer.** This is `addElement` and `getPrev`.
- **Feature reports.** This is the integer fields of `SensorRange` and `HmdInfo`, and the keep-alive payload.

## How the model is built

The JavaScript bitwise operators are modelled on unbounded integers, with ECMAScript's 32-bit semantics (module `JsBits`):

- `ToInt32` and `ToUint32`;
- `|` and `&` bit by bit on the 32-bit patterns;
- `<<` truncating to 32 bits;
- `>>` as floor division of the signed pattern;
- `%` truncating toward zero.

Decoders are stated arithmetically, for example `DecodeInt16` or `PackedX`. For each of them, a lemma ending in `AsWritten` proves that the driver's own operator expression computes the same value.

Where the source changes state step by step, the model does too:

- The descriptor constructors that loop become methods with loops. Each is proved equal to a recursive specification.
- The report-descriptor `for` loop is `ParseReportDescriptor`.
- The ring buffer is a class over an `array<int>`.
- The telemetry closure's `lastTimestamp` and `lastSampleCount` are the fields of a class.

These parsers have an encoder as their partner, with a round-trip lemma:

- the endpoint, HID, interface and device descriptors;
- the configuration descriptor, when no interface but the last carries a HID descriptor;
- the 16-bit values and the BCD release text;
- the packed sensor triplet;
- the `SensorRange` report, the `HmdInfo` header and the keep-alive payload.

The report-descriptor walk and the telemetry record have no encoder. They are characterised instead:

- the walk by an invariant (indices stay valid and reports only grow) and per-item lemmas;
- the record by where each field and sample is read.

The ring buffer has a look-back invariant over the history of added vectors.

Where HID 1.11 (section 6.2.2) and the code differ, the model follows the code:

- Section 6.2.2.2 gives size code 3 four data bytes. The code reads three bytes, puts bytes 1 and 2 both at bits 8-15, and advances three bytes.
- Section 6.2.2.8 clears local items such as Usage after each main item. The code never clears `usage`.

Two further behaviours of the code are modelled as they are:

- An End Collection with only the root on the stack pops it, and `current` stays on the root. A second unbalanced one, on the empty stack, leaves `current` undefined. Nothing fails at either item. A Report ID while `current` is the root fails, because the root has no report list (`ReportIdAtRootRefused`). Otherwise the imbalance is seen by the final depth check (`LoneEndCollection`), unless later Collection items push the stack back to one entry.
- After an interface that carries a HID descriptor, the configuration parser looks for the next interface 9 bytes too early. The parse then usually fails, though not always.

## Model

| member | source | states |
|---|---|---|
| Bcd.BcdStringAsWritten | experimental/usb-driver/driver.js:30-32 | `value >> 8`, `(value >> 4) & 0xF` and `value & 0xF` are the high byte and the two low nibbles of a 16-bit value. The text is their decimals, as "major.n1n0". |
| Bcd.DecimalRoundTrip | experimental/usb-driver/driver.js:30-32 | The decimal text `String(n)` of every natural number reads back as n. |
| Bcd.BcdRoundTrip | experimental/usb-driver/driver.js:30-32 | For every value whose two low nibbles are decimal digits, the release text parses back to the value. |
| Bcd.BcdStringCollision | experimental/usb-driver/driver.js:30-32 | Outside binary-coded decimal the text is ambiguous: 0x011A and 0x01B0 both print "1.110". |
| Bcd.Usb2String | experimental/usb-driver/driver.js:30-32 | 0x0200 prints "2.00". |
| Bcd.Hid11String | experimental/usb-driver/driver.js:30-32 | 0x0110 prints "1.10". |
| ByteData.DecodeUint16AsWritten | experimental/usb-driver/driver.js:285-287 | `data[o] \| (data[o + 1] << 8)` is the little-endian value b0 + 256·b1. |
| ByteData.DecodeInt16 | experimental/usb-driver/driver.js:288-291 | The result lies in [-32768, 32767]. It equals the unsigned pair minus 65536 exactly when the high byte's top bit is set. |
| ByteData.DecodeInt16AsWritten | experimental/usb-driver/driver.js:288-291 | The driver's `(data[o + 1] << 8) \| data[o]` followed by `u > 32767 ? u - 65536 : u` equals DecodeInt16. |
| ByteData.Uint16RoundTrip | experimental/usb-driver/driver.js:285-287 | The two little-endian bytes of any 16-bit w decode to w. |
| ByteData.Int16RoundTrip | experimental/usb-driver/driver.js:288-291 | The two's-complement bytes of any v in [-32768, 32767] decode to v. |
| UsbDescriptors.ParseEndpoint | experimental/usb-driver/driver.js:78-88 | Succeeds exactly when bLength is 7 and bDescriptorType is 5. A failure names the offset of the first wrong byte. |
| UsbDescriptors.ParseHid | experimental/usb-driver/driver.js:90-102 | Succeeds exactly when bLength is 9, bDescriptorType is 33 and bNumDescriptors is 1. |
| UsbDescriptors.ParseRunLoop | experimental/usb-driver/driver.js:127-131 | The push loop returns what the recursive run specification returns: the items in order, or the first failure. |
| UsbDescriptors.ParseInterfaceDescriptor | experimental/usb-driver/driver.js:104-132 | The cursor-walking constructor returns InterfaceAt(data, o). |
| UsbDescriptors.ParseConfigurationDescriptor | experimental/usb-driver/driver.js:136-161 | The cursor-walking constructor returns ConfigurationOf(data). |
| UsbDescriptors.ParseRunLayout | experimental/usb-driver/driver.js:155-160 | A successful run yields exactly `count` items, and item k is what the parser gives at the k-th cursor position. |
| UsbDescriptors.EndpointsFromSucceeds | experimental/usb-driver/driver.js:127-131 | The endpoint list parses exactly when every endpoint at o + 7k, for k < count, parses. |
| UsbDescriptors.EndpointsFromLayout | experimental/usb-driver/driver.js:127-131 | A parsed endpoint list has exactly `count` entries, and entry k is the endpoint at o + 7k. |
| UsbDescriptors.InterfaceSucceeds | experimental/usb-driver/driver.js:104-131 | An interface parses exactly when the header is (9, 4), its HID descriptor parses when the class is 3, and each of its bNumEndpoints endpoints parses. |
| UsbDescriptors.InterfaceLayout | experimental/usb-driver/driver.js:104-131 | A parsed interface has bNumEndpoints endpoints at 7-byte strides. It has a HID descriptor exactly when its class is 3, and the endpoints start after those 9 bytes. |
| UsbDescriptors.InterfaceStrideSkipsHid | experimental/usb-driver/driver.js:158-159 | The configuration's step after an interface is the bytes the interface occupied, minus the 9 HID bytes when it has a HID descriptor. |
| UsbDescriptors.ConfigurationLayout | experimental/usb-driver/driver.js:136-161 | On success, byte 1 is 2 and there are exactly bNumInterfaces interfaces. The first is at 9, and each next one is at the previous offset + 9 + 7·(its endpoints). |
| UsbDescriptors.InterfaceFrame | experimental/usb-driver/driver.js:104-131 | An interface parse reads nothing before its offset. |
| UsbDescriptors.ConfigurationIgnoresTotalLength | experimental/usb-driver/driver.js:141 | Two buffers that agree on byte 1 and from byte 4 on parse alike: wTotalLength is read but never used. |
| DescriptorEncoding.EndpointRoundTrip | experimental/usb-driver/driver.js:78-86 | The standard 7-byte endpoint layout parses back to the endpoint. |
| DescriptorEncoding.EndpointsRoundTrip | experimental/usb-driver/driver.js:127-131 | Consecutive encoded endpoints parse back to the list. |
| DescriptorEncoding.HidRoundTrip | experimental/usb-driver/driver.js:90-100 | The standard 9-byte HID descriptor (one class descriptor) parses back to it. |
| DescriptorEncoding.InterfaceRoundTrip | experimental/usb-driver/driver.js:104-132 | An encoded interface (header, HID descriptor when class 3, endpoints) parses back to the interface. |
| DescriptorEncoding.InterfacesRoundTrip | experimental/usb-driver/driver.js:155-160 | An encoded interface list parses back when no interface but the last carries a HID descriptor. |
| DescriptorEncoding.ConfigurationRoundTrip | experimental/usb-driver/driver.js:136-161 | A configuration in the standard layout parses back to itself under the same condition. |
| DescriptorEncoding.HidInterfaceBreaksConfiguration | experimental/usb-driver/driver.js:155-160 | A HID interface without endpoints that is followed by another interface makes the parse look for the next interface at the HID descriptor, which fails with a wrong type at offset 19. |
| DescriptorEncoding.DeviceRoundTrip | experimental/usb-driver/driver.js:205-229 | The standard 18-byte device descriptor parses back to the device, release texts included. |
| HidReport.ItemFieldsAsWritten | experimental/usb-driver/driver.js:523-525 | `b0 >> 4`, `(b0 >> 2) & 0x3` and `b0 & 0x3` are the tag, type and size fields, and b0 = 16·tag + 4·type + size. |
| HidReport.ReadDataAsWritten | experimental/usb-driver/driver.js:500 | `data[o] \| (data[o + 1] << 8) \| (data[o + 2] << 8)` is ReadData's size-3 value: byte 0, plus bytes 1 and 2 or-ed together at bits 8-15. |
| HidReport.ReadData | experimental/usb-driver/driver.js:491-502 | Every item value is below 2^16. |
| HidReport.ReadDataFourBytes | experimental/usb-driver/driver.js:499-500 | The size-3 value equals the standard four-byte little-endian value exactly when the two high bytes are zero. |
| HidReport.Step | experimental/usb-driver/driver.js:517-681 | One short item keeps every collection and report index valid and only appends to reports. A failure is at the item's own offset, and is never the depth failure. |
| HidReport.MainField | experimental/usb-driver/driver.js:528-557 | An Input, Output or Feature item keeps the indices valid and only appends to reports. |
| HidReport.BeginCollection | experimental/usb-driver/driver.js:558-577 | A Collection item keeps every collection and report index valid and never removes or shortens a report. |
| HidReport.EndCollection | experimental/usb-driver/driver.js:578-581 | An End Collection item (a pop, or `current` undefined on an empty stack) keeps every index valid and never removes or shortens a report. |
| HidReport.BeginReport | experimental/usb-driver/driver.js:616-626 | A Report ID item keeps the indices valid and only adds a report. |
| HidReport.GlobalItem | experimental/usb-driver/driver.js:586-640 | A global item keeps the indices valid and only ever adds reports. |
| HidReport.RunFrom | experimental/usb-driver/driver.js:516-683 | The walk from any valid state ends, if it succeeds, in a valid state. |
| HidReport.ParseReportDescriptor | experimental/usb-driver/driver.js:490-695 | The imperative loop returns ReportDescriptorOf(data): the collections, the reports and their total sizes, or the first error. |
| HidReport.ComputeTotalSizes | experimental/usb-driver/driver.js:686-694 | The nested loop computes TotalSizes of the reports. |
| HidReportProperties.MainItemTotals | experimental/usb-driver/driver.js:528-557 | Only Input items count towards `totalSize`. An Input adds the bytes of its new field, (reportSize / 8) · reportCount, to the current report's total. Output and Feature items change no total. |
| HidReportProperties.ReportIdTotals | experimental/usb-driver/driver.js:616-626 | A Report ID appends a report whose total is 0 and leaves every other total unchanged. |
| HidReportProperties.TotalSizeConcat | experimental/usb-driver/driver.js:689-692 | The total size is additive over a split of the input list. |
| HidReportProperties.TotalSizeExample | experimental/usb-driver/driver.js:691 | One input with reportSize 16 and reportCount 3 gives 6. |
| HidReportProperties.LongItemOnlyAtPrefix | experimental/usb-driver/driver.js:518-520 | The walk fails with a long item only at an item prefix byte equal to 0xFE. |
| HidReportProperties.RunReportsGrow | experimental/usb-driver/driver.js:516-683 | Across the whole walk, reports are only added, and fields only appended to them. |
| HidReportProperties.DepthChecked | experimental/usb-driver/driver.js:684 | The parse fails for imbalance with depth d exactly when the walk succeeds and ends with d stack entries, d ≠ 1. |
| HidReportProperties.UnbalancedNotFromRun | experimental/usb-driver/driver.js:684 | No item fails for imbalance: only the final check does. |
| HidReportProperties.MainItemAppendsField | experimental/usb-driver/driver.js:528-557 | Before any Report ID an Input, Output or Feature item fails. Otherwise it appends exactly one field, holding the current usage, logical minimum, logical maximum, report size and report count, to the matching list of the current report. Everything else, the usage register included, is unchanged. |
| HidReportProperties.ReportIdAppendsReport | experimental/usb-driver/driver.js:616-626 | A Report ID succeeds exactly when the current collection has a report list. It then appends one empty report to the flat list and its index to that collection's list, and makes it the current report. Nothing else changes. |
| HidReportProperties.ReportIdAtRootRefused | experimental/usb-driver/driver.js:625 | A Report ID before any collection fails: the root has no report list. |
| HidReportProperties.CollectionStoredUnderKind | experimental/usb-driver/driver.js:558-577 | A Collection item pushes a new empty collection and makes it current. It stores the new collection under its kind in the parent, overwriting an earlier one of the same kind. It fails when the type byte is past the end. |
| HidReportProperties.EndCollectionKeepsChild | experimental/usb-driver/driver.js:578-581 | After Collection then End Collection the stack is back where it was, but `current` is the popped child, not its parent. |
| HidReportProperties.LoneEndCollection | experimental/usb-driver/driver.js:578-581 | A lone End Collection pops the root and succeeds as a step. The parse then fails the final check with depth 0. |
| HidReportProperties.SizeCodeThreeSkipsThree | experimental/usb-driver/driver.js:681 | After a size-3 item the next prefix is read 4 bytes on, not 5. |
| HidReportProperties.UsageCombinesPage | experimental/usb-driver/driver.js:644 | A Usage item sets usage to usagePage · 2^16 + its value (for pages below 0x8000) and changes nothing else. |
| HidReportProperties.VendorPageUsageNegative | experimental/usb-driver/driver.js:644 | For a usage page of 0x8000 or more, `(usagePage << 16) \| value` is negative. |
| HidReportProperties.OneReportExample | experimental/usb-driver/driver.js:490-695 | Application collection, Report ID 1, report size 16, count 3, one Input, End Collection: one report with one field and total size 6. |
| Telemetry.PackedXAsWritten | experimental/usb-driver/driver.js:942 | The driver's shifts and masks for the first field are the 21 bits b0·2^13 + b1·2^5 + b2/8. |
| Telemetry.PackedYAsWritten | experimental/usb-driver/driver.js:943-944 | The second field is the next 21 bits. |
| Telemetry.PackedZAsWritten | experimental/usb-driver/driver.js:945 | The third field is the next 21 bits (bit 0 of byte 7 unused). |
| Telemetry.SignExtend21 | experimental/usb-driver/driver.js:946-948 | The result lies in [-2^20, 2^20) and is congruent to its argument modulo 2^21. |
| Telemetry.SignExtend21AsWritten | experimental/usb-driver/driver.js:946-948 | `(v << 11) >> 11` on a 21-bit v is v, minus 2^21 when bit 20 is set. |
| Telemetry.SignExtend21Examples | experimental/usb-driver/driver.js:946-948 | 0x1FFFFF sign-extends to -1, and 1 to 1. |
| Telemetry.DecodeSensorData | experimental/usb-driver/driver.js:940-950 | Each of the three values lies in [-2^20, 2^20 - 1]. |
| Telemetry.SensorDataRoundTrip | experimental/usb-driver/driver.js:940-950 | Any triple in that range, packed into 8 bytes, decodes back to itself. |
| Telemetry.IterationCount | experimental/usb-driver/driver.js:988 | The count is min(sampleCount, 3). |
| Telemetry.Samples | experimental/usb-driver/driver.js:989-994 | Sample k is the accelerometer triplet at 8 + 16k and the gyro triplet at 16 + 16k, in order. |
| Telemetry.MessageOf | experimental/usb-driver/driver.js:978-994 | The message carries exactly min(sampleCount, 3) samples. |
| Telemetry.DecodeMessage | experimental/usb-driver/driver.js:976-994 | The decoding loop returns MessageOf(data), sample n being the triplets at 8 + 16n and 16 + 16n. |
| Telemetry.TimestampDeltaWraps | experimental/usb-driver/driver.js:997-999 | The delta lies in [0, 65535] and is (ts - last) mod 2^16. |
| Telemetry.CatchUpCondition | experimental/usb-driver/driver.js:996-1002 | A catch-up sample is due exactly when a timestamp was stored (non-zero) and lastSampleCount < delta ≤ 254. It then covers delta - lastSampleCount ticks, between 1 and 254. |
| Telemetry.CatchUpExample | experimental/usb-driver/driver.js:996-1002 | With stored timestamp 65530, 2 samples before, and a new timestamp of 10, the catch-up covers 14 ticks. |
| Telemetry.HandleRecordOf | experimental/usb-driver/driver.js:996-1011 | The new state is (timestamp, unclamped sampleCount). The pump goes on exactly when sampleCount > 0. min(sampleCount, 3) samples follow, and the catch-up is as CatchUpTicks says. |
| Telemetry.FirstRecordNoCatchUp | experimental/usb-driver/driver.js:996 | Starting from the stored timestamp 0, no catch-up sample is emitted. |
| Telemetry.TelemetryPump.constructor | experimental/usb-driver/driver.js:919-920 | The handler starts with no stored timestamp (0) and no samples counted. |
| Telemetry.TelemetryPump.HandleRecord | experimental/usb-driver/driver.js:976-1011 | The closure's step returns HandleRecordOf(data, previous state) and stores its new state in the fields. |
| Filters.NextIdx | experimental/usb-driver/driver.js:703-707 | The advanced index lies in [0, Size) and is (LastIdx + 1) mod Size. |
| Filters.PrevSlot | experimental/usb-driver/driver.js:713-716 | JavaScript's `(LastIdx - i) % Size`, fixed up by adding Size when negative, lies in [0, Size) and is the Euclidean (LastIdx - i) mod Size. |
| Filters.Store | experimental/usb-driver/driver.js:708-710 | The three writes put the vector in slot k and leave every other slot unchanged. |
| Filters.NextIdxCounts | experimental/usb-driver/driver.js:703-707 | After n additions LastIdx is (n - 1) mod Size (or -1 before the first). |
| Filters.PrevSlotShifts | experimental/usb-driver/driver.js:703-716 | After an addition, looking back i steps reads the slot that was i - 1 steps back before it. |
| Filters.PrevSlotAvoidsLast | experimental/usb-driver/driver.js:712-716 | Looking back 1 to Size - 1 steps never reads the slot just written. |
| Filters.RemembersAfterAdd | experimental/usb-driver/driver.js:702-711 | `addElement` keeps the look-back invariant: for each i below both the count added and Size, slot PrevSlot(i) holds the vector added i steps before the last. |
| Filters.PrevZeroIsAdded | experimental/usb-driver/driver.js:702-720 | Right after `addElement(v)`, `getPrev(0)` reads v. |
| Filters.RememberedSlot | experimental/usb-driver/driver.js:712-720 | Under the invariant, slot PrevSlot(i) holds the vector added i steps back. |
| Filters.SensorFilter.constructor | experimental/usb-driver/driver.js:697-701 | A zeroed buffer of 3·Size numbers, with LastIdx -1 and nothing added. |
| Filters.SensorFilter.AddElement | experimental/usb-driver/driver.js:702-711 | LastIdx advances with wrap-around, only the three numbers of that slot are written, and the look-back invariant is kept. |
| Filters.SensorFilter.GetPrev | experimental/usb-driver/driver.js:712-720 | Copies slot PrevSlot(LastIdx, i) into out, which is always in range. For i below both the count added and Size, that is the vector added i steps back. |
| FeatureReports.CommandIdAsWritten | experimental/usb-driver/driver.js:339 | `data[1] \| (data[2] << 8)` is the little-endian command id of both reports. |
| FeatureReports.SensorRangeRoundTrip | experimental/usb-driver/driver.js:337-343 | The command id, accelerometer, gyro and magnetometer scales are read back from where the report layout puts them. |
| FeatureReports.HmdInfoRoundTrip | experimental/usb-driver/driver.js:303-308 | The command id, distortion type and both resolutions are read back from the report header, whatever follows it. |
| FeatureReports.LowByteStored | experimental/usb-driver/driver.js:409 | For every integer interval, `intervalMs & 0xFF` stored in a byte is the interval mod 256. |
| FeatureReports.HighByteStored | experimental/usb-driver/driver.js:410 | For every integer interval, `intervalMs >> 8` stored in a byte is the interval's second byte. |
| FeatureReports.KeepAliveBytes | experimental/usb-driver/driver.js:405-412 | The payload is 0, 0, then the interval's low byte and its second byte. |
| FeatureReports.KeepAliveInterval | experimental/usb-driver/driver.js:405-412 | Bytes 2-3 decode, little-endian, to the interval modulo 2^16. |
| FeatureReports.KeepAliveRoundTrip | experimental/usb-driver/driver.js:405-412 | A 16-bit interval is carried exactly. |
| FeatureReports.TenSecondKeepAlive | experimental/usb-driver/driver.js:457 | The 10000 ms keep-alive is the payload [0, 0, 0x10, 0x27]. |
| JsBits.JsRemFixUp | experimental/usb-driver/driver.js:713-716 | A truncating remainder, plus the divisor when negative, is the Euclidean remainder. |

## Left out

- The USB transport is not modelled: the `chrome.usb` transfers, device claiming, `ioctl_read`, `getFeatureReport`/`setFeatureReport` and the interrupt read loop are I/O through a library that is not part of this model.
- The asynchronous string fan-out (interface, configuration and device names and the `remainingCount` joins) is callback plumbing, so those name fields are not in the model.
- Sensor fusion, `getMean`, the Savitzky-Golay smoothing and the physical-unit scaling (including temperature × 0.01) are floating-point arithmetic. Raw integer samples are modelled instead.
- `decodeUint32`, `decodeFloat32` and the float fields of `HmdInfo` reinterpret bytes as Float32 or scale by 10^-6.
- The catch-up sample's contents (the previous converted values) are floats, so only its tick count is modelled.
- The `Date.now()` timing of the keep-alive is wall-clock dependent; only the payload is modelled. The interval is an integer; fractional JavaScript numbers are not modelled.
- The `HidDevice` stub and all console logging are not modelled.
- `console.assert` only logs in a browser. A failed descriptor header check, a long item and the final depth check are modelled as failures, because the driver's results after a failed assert are not meaningful.
- Reading past the end of a buffer is modelled as byte 0. This is exact where the value passes through a bitwise operator. A direct read, for example a 1-byte item value past the end, would give `undefined` in JavaScript.
- The early `!data` return of the record handler is not modelled: a record is always a byte sequence.
- `totalSize` is an exact rational (`real`), which is what the double arithmetic gives for these small values; rounding is not modelled.
- Filters.SensorFilter.constructor requires Size > 0. With Size 0 the JavaScript computes with NaN indices, which the model does not represent.
- Filters.SensorFilter.AddElement stores integers, where a Float32Array would round to single precision.
- Filters.SensorFilter.GetPrev requires that `out` is not the buffer's own array; the driver always passes a separate vector.
- Telemetry.TelemetryPump.HandleRecord models the TypeError after a record with no samples as `pumpContinues == false`. It does not model the exception itself.
