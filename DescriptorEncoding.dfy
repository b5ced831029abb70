/**
 * The standard byte layouts of the descriptors (USB 2.0 sections 9.6.1,
 * 9.6.3, 9.6.5 and 9.6.6; HID 1.11 section 6.2.1), written out as
 * encoders, and what the driver's parsers make of them: every descriptor it
 * parses on its own round-trips, and a configuration round-trips when no
 * interface but the last carries a HID descriptor.  That condition is
 * sufficient, not necessary: a HID interface followed by another one can
 * still happen to parse back, but it fails for instance when it has no
 * endpoints (HidInterfaceBreaksConfiguration).
 */
module DescriptorEncoding {
  import opened Wrappers
  import opened ByteData
  import opened Bcd
  import opened UsbDescriptors

  function EndpointBytes(e: Endpoint): (s: seq<byte>)
    ensures |s| == EndpointLength
  {
    [EndpointLength, EndpointType, e.endpointAddress, e.attributes] + Uint16Bytes(e.maxPacketSize) + [e.interval]
  }

  function EndpointsBytes(endpoints: seq<Endpoint>): (s: seq<byte>)
    ensures |s| == EndpointLength * |endpoints|
  {
    if endpoints == [] then [] else EndpointBytes(endpoints[0]) + EndpointsBytes(endpoints[1..])
  }

  /** The HID descriptor of `h`, whose release text is that of `bcdHid`, listing one class descriptor. */
  function HidBytes(bcdHid: uint16, h: HidDescriptor): (s: seq<byte>)
    ensures |s| == HidLength
  {
    [HidLength, HidType] + Uint16Bytes(bcdHid) + [h.countryCode, 1, h.descriptorType] + Uint16Bytes(h.descriptorLength)
  }

  /** A HID descriptor exactly when the class is HID, its release text the one of `bcdHid`. */
  predicate HidMatchesClass(i: Interface, bcdHid: uint16) {
    && (i.interfaceClass == HidClass <==> i.hidDescriptor.Some?)
    && (i.hidDescriptor.Some? ==> i.hidDescriptor.value.hid == BcdString(bcdHid))
  }

  /** An interface the standard layout can hold: fewer than 256 endpoints, and its HID descriptor as its class says. */
  predicate EncodableInterface(i: Interface, bcdHid: uint16) {
    |i.endpoints| < 0x100 && HidMatchesClass(i, bcdHid)
  }

  predicate EndpointCountsFit(interfaces: seq<Interface>) {
    forall k :: 0 <= k < |interfaces| ==> |interfaces[k].endpoints| < 0x100
  }

  predicate EncodableInterfaces(interfaces: seq<Interface>, bcdHid: uint16) {
    && EndpointCountsFit(interfaces)
    && forall k :: 0 <= k < |interfaces| ==> HidMatchesClass(interfaces[k], bcdHid)
  }

  function HidPart(i: Interface, bcdHid: uint16): (s: seq<byte>)
    ensures |s| == if i.hidDescriptor.Some? then HidLength else 0
  {
    if i.hidDescriptor.Some? then HidBytes(bcdHid, i.hidDescriptor.value) else []
  }

  /** The interface header, then its HID descriptor if any, then its endpoints. */
  function InterfaceBytes(i: Interface, bcdHid: uint16): (s: seq<byte>)
    requires |i.endpoints| < 0x100
    ensures |s| == InterfaceLength + |HidPart(i, bcdHid)| + EndpointLength * |i.endpoints|
  {
    [InterfaceLength, InterfaceType, i.interfaceNumber, i.alternateSetting, |i.endpoints|,
     i.interfaceClass, i.interfaceSubClass, i.interfaceProtocol, i.interfaceIndex]
    + HidPart(i, bcdHid) + EndpointsBytes(i.endpoints)
  }

  function InterfacesBytes(interfaces: seq<Interface>, bcdHid: uint16): seq<byte>
    requires EndpointCountsFit(interfaces)
  {
    if interfaces == [] then []
    else InterfaceBytes(interfaces[0], bcdHid) + InterfacesBytes(interfaces[1..], bcdHid)
  }

  predicate EncodableConfiguration(c: Configuration, bcdHid: uint16) {
    && |c.interfaces| < 0x100
    && EncodableInterfaces(c.interfaces, bcdHid)
    && 9 + |InterfacesBytes(c.interfaces, bcdHid)| < 0x1_0000
  }

  /** The 9-byte configuration header, wTotalLength counting everything, then the interfaces. */
  function ConfigurationBytes(c: Configuration, bcdHid: uint16): seq<byte>
    requires EncodableConfiguration(c, bcdHid)
  {
    var body := InterfacesBytes(c.interfaces, bcdHid);
    [9, ConfigurationType] + Uint16Bytes(9 + |body|)
    + [|c.interfaces|, c.configurationValue, c.configurationIndex, c.attributes, c.maxPower] + body
  }

  /** The 18-byte device descriptor; the two release texts are those of `bcdUsb` and `bcdDevice`. */
  function DeviceBytes(d: Device, bcdUsb: uint16, bcdDevice: uint16): (s: seq<byte>)
    ensures |s| == DeviceSize
  {
    [DeviceSize, 1] + Uint16Bytes(bcdUsb) + [d.deviceClass, d.deviceSubClass, d.deviceProtocol, d.maxPacketSize]
    + Uint16Bytes(d.vendorId) + Uint16Bytes(d.productId) + Uint16Bytes(bcdDevice)
    + [d.manufacturerIndex, d.productIndex, d.serialNumberIndex, d.configurationCount]
  }

  lemma EndpointRoundTrip(data: seq<byte>, o: int, e: Endpoint)
    requires HoldsAt(data, o, EndpointBytes(e))
    ensures ParseEndpoint(data, o) == Success(e)
  {
    var b := EndpointBytes(e);
    assert ByteAt(data, o) == b[0] && ByteAt(data, o + 1) == b[1];
    assert ByteAt(data, o + 2) == b[2] && ByteAt(data, o + 3) == b[3];
    assert ByteAt(data, o + 4) == b[4] && ByteAt(data, o + 5) == b[5];
    assert ByteAt(data, o + 6) == b[6];
  }

  lemma {:induction false} EndpointsRoundTrip(data: seq<byte>, o: int, endpoints: seq<Endpoint>)
    requires HoldsAt(data, o, EndpointsBytes(endpoints))
    ensures EndpointsFrom(data, o, |endpoints|) == Success(endpoints)
    decreases |endpoints|
  {
    if endpoints != [] {
      var e := endpoints[0];
      HoldsAtConcat(data, o, EndpointBytes(e), EndpointsBytes(endpoints[1..]));
      EndpointRoundTrip(data, o, e);
      EndpointsRoundTrip(data, o + EndpointLength, endpoints[1..]);
      assert EndpointParser(data)(o) == Success(e);
      ParseRunStep(EndpointParser(data), EndpointStride, o, |endpoints|);
      assert [e] + endpoints[1..] == endpoints;
    }
  }

  lemma HidRoundTrip(data: seq<byte>, o: int, bcdHid: uint16, h: HidDescriptor)
    requires h.hid == BcdString(bcdHid)
    requires HoldsAt(data, o, HidBytes(bcdHid, h))
    ensures ParseHid(data, o) == Success(h)
  {
    var b := HidBytes(bcdHid, h);
    assert ByteAt(data, o) == b[0] && ByteAt(data, o + 1) == b[1];
    assert ByteAt(data, o + 2) == b[2] && ByteAt(data, o + 3) == b[3];
    assert ByteAt(data, o + 4) == b[4] && ByteAt(data, o + 5) == b[5];
    assert ByteAt(data, o + 6) == b[6] && ByteAt(data, o + 7) == b[7];
    assert ByteAt(data, o + 8) == b[8];
  }

  /** Where the header fields, the HID descriptor and the endpoints of an encoded interface sit. */
  lemma InterfaceBytesLayout(data: seq<byte>, o: int, i: Interface, bcdHid: uint16)
    requires |i.endpoints| < 0x100
    requires HoldsAt(data, o, InterfaceBytes(i, bcdHid))
    ensures ByteAt(data, o) == InterfaceLength && ByteAt(data, o + 1) == InterfaceType
    ensures ByteAt(data, o + 2) == i.interfaceNumber && ByteAt(data, o + 3) == i.alternateSetting
    ensures ByteAt(data, o + 4) == |i.endpoints| && ByteAt(data, o + 5) == i.interfaceClass
    ensures ByteAt(data, o + 6) == i.interfaceSubClass && ByteAt(data, o + 7) == i.interfaceProtocol
    ensures ByteAt(data, o + 8) == i.interfaceIndex
    ensures HoldsAt(data, o + InterfaceLength, HidPart(i, bcdHid))
    ensures HoldsAt(data, o + InterfaceLength + |HidPart(i, bcdHid)|, EndpointsBytes(i.endpoints))
  {
    var header := [InterfaceLength, InterfaceType, i.interfaceNumber, i.alternateSetting, |i.endpoints|,
                   i.interfaceClass, i.interfaceSubClass, i.interfaceProtocol, i.interfaceIndex];
    var hid := HidPart(i, bcdHid);
    assert InterfaceBytes(i, bcdHid) == header + (hid + EndpointsBytes(i.endpoints));
    HoldsAtConcat(data, o, header, hid + EndpointsBytes(i.endpoints));
    HoldsAtConcat(data, o + |header|, hid, EndpointsBytes(i.endpoints));
    assert ByteAt(data, o) == header[0] && ByteAt(data, o + 1) == header[1];
    assert ByteAt(data, o + 2) == header[2] && ByteAt(data, o + 3) == header[3];
    assert ByteAt(data, o + 4) == header[4] && ByteAt(data, o + 5) == header[5];
    assert ByteAt(data, o + 6) == header[6] && ByteAt(data, o + 7) == header[7];
    assert ByteAt(data, o + 8) == header[8];
  }

  lemma InterfaceRoundTrip(data: seq<byte>, o: int, i: Interface, bcdHid: uint16)
    requires EncodableInterface(i, bcdHid)
    requires HoldsAt(data, o, InterfaceBytes(i, bcdHid))
    ensures InterfaceAt(data, o) == Success(i)
  {
    InterfaceBytesLayout(data, o, i, bcdHid);
    if i.hidDescriptor.Some? {
      HidRoundTrip(data, o + InterfaceLength, bcdHid, i.hidDescriptor.value);
    }
    assert EndpointsStart(data, o) == o + InterfaceLength + |HidPart(i, bcdHid)|;
    EndpointsRoundTrip(data, EndpointsStart(data, o), i.endpoints);
  }

  lemma ParseRunCons<T>(parse: int -> Result<T, DescriptorError>, stride: T -> nat, o: int, x: T, rest: seq<T>)
    requires parse(o) == Success(x)
    requires ParseRun(parse, stride, o + stride(x), |rest|) == Success(rest)
    ensures ParseRun(parse, stride, o, |rest| + 1) == Success([x] + rest)
  {
    ParseRunStep(parse, stride, o, |rest| + 1);
  }

  /** No interface but the last carries a HID descriptor. */
  predicate HidOnlyLast(interfaces: seq<Interface>) {
    forall k :: 0 <= k < |interfaces| - 1 ==> interfaces[k].hidDescriptor.None?
  }

  /** What the encoding conditions say of the first interface and of the ones after it. */
  lemma InterfacesSplit(interfaces: seq<Interface>, bcdHid: uint16)
    requires interfaces != []
    requires EncodableInterfaces(interfaces, bcdHid) && HidOnlyLast(interfaces)
    ensures EncodableInterface(interfaces[0], bcdHid)
    ensures EncodableInterfaces(interfaces[1..], bcdHid) && HidOnlyLast(interfaces[1..])
    ensures |interfaces| > 1 ==> interfaces[0].hidDescriptor.None?
    ensures InterfacesBytes(interfaces, bcdHid)
            == InterfaceBytes(interfaces[0], bcdHid) + InterfacesBytes(interfaces[1..], bcdHid)
  {
    var rest := interfaces[1..];
    forall k | 0 <= k < |rest| ensures rest[k] == interfaces[k + 1] {
    }
  }

  /** The first interface of an encoded list parses, and the rest still satisfies the conditions where the parser looks next. */
  lemma InterfacesStep(data: seq<byte>, o: int, interfaces: seq<Interface>, bcdHid: uint16)
    requires interfaces != []
    requires EncodableInterfaces(interfaces, bcdHid) && HidOnlyLast(interfaces)
    requires HoldsAt(data, o, InterfacesBytes(interfaces, bcdHid))
    ensures InterfaceParser(data)(o) == Success(interfaces[0])
    ensures EncodableInterfaces(interfaces[1..], bcdHid) && HidOnlyLast(interfaces[1..])
    ensures |interfaces| > 1 ==> HoldsAt(data, o + InterfaceStride(interfaces[0]), InterfacesBytes(interfaces[1..], bcdHid))
  {
    var i, rest := interfaces[0], interfaces[1..];
    InterfacesSplit(interfaces, bcdHid);
    HoldsAtConcat(data, o, InterfaceBytes(i, bcdHid), InterfacesBytes(rest, bcdHid));
    InterfaceRoundTrip(data, o, i, bcdHid);
  }

  lemma {:induction false} InterfacesRoundTrip(data: seq<byte>, o: int, interfaces: seq<Interface>, bcdHid: uint16)
    requires EncodableInterfaces(interfaces, bcdHid)
    requires HidOnlyLast(interfaces)
    requires HoldsAt(data, o, InterfacesBytes(interfaces, bcdHid))
    ensures InterfacesFrom(data, o, |interfaces|) == Success(interfaces)
    decreases |interfaces|
  {
    if interfaces != [] {
      var i, rest := interfaces[0], interfaces[1..];
      InterfacesStep(data, o, interfaces, bcdHid);
      if rest != [] {
        InterfacesRoundTrip(data, o + InterfaceStride(i), rest, bcdHid);
      }
      ParseRunCons(InterfaceParser(data), InterfaceStride, o, i, rest);
      assert [i] + rest == interfaces;
    }
  }

  /** The header bytes of an encoded configuration, and where its interfaces sit. */
  lemma ConfigurationBytesLayout(c: Configuration, bcdHid: uint16)
    requires EncodableConfiguration(c, bcdHid)
    ensures var data := ConfigurationBytes(c, bcdHid);
      && ByteAt(data, 1) == ConfigurationType
      && ByteAt(data, 4) == |c.interfaces|
      && ByteAt(data, 5) == c.configurationValue && ByteAt(data, 6) == c.configurationIndex
      && ByteAt(data, 7) == c.attributes && ByteAt(data, 8) == c.maxPower
      && HoldsAt(data, 9, InterfacesBytes(c.interfaces, bcdHid))
  {
    var body := InterfacesBytes(c.interfaces, bcdHid);
    var header := [9, ConfigurationType] + Uint16Bytes(9 + |body|)
                  + [|c.interfaces|, c.configurationValue, c.configurationIndex, c.attributes, c.maxPower];
    assert ConfigurationBytes(c, bcdHid) == header + body + [];
    HoldsAtWhole(header, body, []);
  }

  /**
   * A configuration in the standard layout parses back to itself when no
   * interface but the last carries a HID descriptor.
   */
  lemma ConfigurationRoundTrip(c: Configuration, bcdHid: uint16)
    requires EncodableConfiguration(c, bcdHid)
    requires HidOnlyLast(c.interfaces)
    ensures ConfigurationOf(ConfigurationBytes(c, bcdHid)) == Success(c)
  {
    var data := ConfigurationBytes(c, bcdHid);
    ConfigurationBytesLayout(c, bcdHid);
    InterfacesRoundTrip(data, 9, c.interfaces, bcdHid);
  }

  /**
   * A HID interface without endpoints followed by another interface: the
   * parser looks for the second interface where the HID descriptor starts,
   * finds bLength 9 there but bDescriptorType 33, and the whole
   * configuration is refused.
   */
  lemma HidInterfaceBreaksConfiguration(c: Configuration, bcdHid: uint16)
    requires EncodableConfiguration(c, bcdHid)
    requires |c.interfaces| >= 2
    requires c.interfaces[0].hidDescriptor.Some? && c.interfaces[0].endpoints == []
    ensures ConfigurationOf(ConfigurationBytes(c, bcdHid)) == Failure(BadType(19))
  {
    var data := ConfigurationBytes(c, bcdHid);
    ConfigurationBytesLayout(c, bcdHid);
    var i := c.interfaces[0];
    assert EncodableInterface(i, bcdHid) by {
      assert c.interfaces[0] == i;
    }
    var body := InterfacesBytes(c.interfaces, bcdHid);
    HoldsAtConcat(data, 9, InterfaceBytes(i, bcdHid), InterfacesBytes(c.interfaces[1..], bcdHid));
    InterfaceRoundTrip(data, 9, i, bcdHid);
    var ib := InterfaceBytes(i, bcdHid);
    assert ByteAt(data, 18) == ib[9] == HidLength;
    assert ByteAt(data, 19) == ib[10] == HidType;
    assert InterfaceStride(i) == 9;
    assert InterfaceAt(data, 18) == Failure(BadType(19));
    assert InterfaceParser(data)(18) == Failure(BadType(19));
    assert InterfacesFrom(data, 18, |c.interfaces| - 1) == Failure(BadType(19));
    assert InterfaceParser(data)(9) == Success(i);
    ParseRunStep(InterfaceParser(data), InterfaceStride, 9, |c.interfaces|);
  }

  lemma DeviceRoundTrip(data: seq<byte>, d: Device, bcdUsb: uint16, bcdDevice: uint16)
    requires d.usbVersion == BcdString(bcdUsb) && d.deviceRelease == BcdString(bcdDevice)
    requires HoldsAt(data, 0, DeviceBytes(d, bcdUsb, bcdDevice))
    ensures DeviceOf(data) == d
  {
    var b := DeviceBytes(d, bcdUsb, bcdDevice);
    assert DecodeUint16(data, 2) == bcdUsb by {
      assert ByteAt(data, 2) == b[2] && ByteAt(data, 3) == b[3];
    }
    assert DecodeUint16(data, 12) == bcdDevice by {
      assert ByteAt(data, 12) == b[12] && ByteAt(data, 13) == b[13];
    }
    assert DecodeUint16(data, 8) == d.vendorId by {
      assert ByteAt(data, 8) == b[8] && ByteAt(data, 9) == b[9];
    }
    assert DecodeUint16(data, 10) == d.productId by {
      assert ByteAt(data, 10) == b[10] && ByteAt(data, 11) == b[11];
    }
    assert ByteAt(data, 4) == b[4] && ByteAt(data, 5) == b[5];
    assert ByteAt(data, 6) == b[6] && ByteAt(data, 7) == b[7];
    assert ByteAt(data, 14) == b[14] && ByteAt(data, 15) == b[15];
    assert ByteAt(data, 16) == b[16] && ByteAt(data, 17) == b[17];
  }
}
