/**
 * The standard USB descriptors the driver reads from a device: endpoint,
 * HID class, interface, configuration and device descriptors.  Each parser
 * walks a cursor through a byte buffer; a failed `assert` on a header byte
 * is the error path.
 */
module UsbDescriptors {
  import opened Wrappers
  import opened ByteData
  import opened Bcd

  const EndpointLength := 7
  const EndpointType := 5
  const HidLength := 9
  const HidType := 33
  const InterfaceLength := 9
  const InterfaceType := 4
  const ConfigurationType := 2
  const DeviceSize := 18
  /** bInterfaceClass of the HID class. */
  const HidClass := 3

  /** Which `assert` failed, and at which byte of the buffer. */
  datatype DescriptorError =
    | BadLength(offset: int)
    | BadType(offset: int)
    | BadDescriptorCount(offset: int)

  datatype Endpoint = Endpoint(
    endpointAddress: byte,
    attributes: byte,
    maxPacketSize: uint16,
    interval: byte)

  datatype HidDescriptor = HidDescriptor(
    hid: string,
    countryCode: byte,
    descriptorType: byte,
    descriptorLength: uint16)

  datatype Interface = Interface(
    interfaceNumber: byte,
    alternateSetting: byte,
    interfaceClass: byte,
    interfaceSubClass: byte,
    interfaceProtocol: byte,
    interfaceIndex: byte,
    hidDescriptor: Option<HidDescriptor>,
    endpoints: seq<Endpoint>)

  datatype Configuration = Configuration(
    configurationValue: byte,
    configurationIndex: byte,
    attributes: byte,
    maxPower: byte,
    interfaces: seq<Interface>)

  datatype Device = Device(
    usbVersion: string,
    deviceClass: byte,
    deviceSubClass: byte,
    deviceProtocol: byte,
    maxPacketSize: byte,
    vendorId: uint16,
    productId: uint16,
    deviceRelease: string,
    manufacturerIndex: byte,
    productIndex: byte,
    serialNumberIndex: byte,
    configurationCount: byte)

  /** `new EndpointDescriptor(data, o)`: a 7-byte endpoint descriptor at o. */
  function ParseEndpoint(data: seq<byte>, o: int): (r: Result<Endpoint, DescriptorError>)
    ensures r.Success? <==> ByteAt(data, o) == EndpointLength && ByteAt(data, o + 1) == EndpointType
    ensures r.Failure? ==> r.error == if ByteAt(data, o) != EndpointLength then BadLength(o) else BadType(o + 1)
  {
    if ByteAt(data, o) != EndpointLength then Failure(BadLength(o))
    else if ByteAt(data, o + 1) != EndpointType then Failure(BadType(o + 1))
    else Success(Endpoint(ByteAt(data, o + 2), ByteAt(data, o + 3), DecodeUint16(data, o + 4), ByteAt(data, o + 6)))
  }

  /**
   * `new HidDescriptor(data, o)`: a 9-byte HID class descriptor at o that
   * lists exactly one class descriptor.
   */
  function ParseHid(data: seq<byte>, o: int): (r: Result<HidDescriptor, DescriptorError>)
    ensures r.Success? <==>
      ByteAt(data, o) == HidLength && ByteAt(data, o + 1) == HidType && ByteAt(data, o + 5) == 1
  {
    if ByteAt(data, o) != HidLength then Failure(BadLength(o))
    else if ByteAt(data, o + 1) != HidType then Failure(BadType(o + 1))
    else if ByteAt(data, o + 5) != 1 then Failure(BadDescriptorCount(o + 5))
    else Success(HidDescriptor(BcdString(DecodeUint16(data, o + 2)), ByteAt(data, o + 4),
                               ByteAt(data, o + 6), DecodeUint16(data, o + 7)))
  }

  /**
   * `count` descriptors read one after the other from o, each `stride` bytes
   * after the previous one; the first that fails ends the run.
   */
  function ParseRun<T>(parse: int -> Result<T, DescriptorError>, stride: T -> nat, o: int, count: nat)
    : Result<seq<T>, DescriptorError>
    decreases count
  {
    if count == 0 then Success([])
    else
      var x :- parse(o);
      var rest :- ParseRun(parse, stride, o + stride(x), count - 1);
      Success([x] + rest)
  }

  /** `prefix` followed by the list r holds, or r's failure. */
  function Prepend<T>(prefix: seq<T>, r: Result<seq<T>, DescriptorError>): Result<seq<T>, DescriptorError> {
    if r.Success? then Success(prefix + r.value) else r
  }

  lemma PrependEmpty<T>(r: Result<seq<T>, DescriptorError>)
    ensures Prepend([], r) == r
  {
    if r.Success? {
      assert [] + r.value == r.value;
    }
  }

  lemma PrependStep<T>(prefix: seq<T>, x: T, r: Result<seq<T>, DescriptorError>)
    ensures Prepend(prefix, Prepend([x], r)) == Prepend(prefix + [x], r)
  {
    if r.Success? {
      assert prefix + ([x] + r.value) == prefix + [x] + r.value;
    }
  }

  lemma ParseRunStep<T>(parse: int -> Result<T, DescriptorError>, stride: T -> nat, o: int, count: nat)
    requires count > 0 && parse(o).Success?
    ensures ParseRun(parse, stride, o, count)
            == Prepend([parse(o).value], ParseRun(parse, stride, o + stride(parse(o).value), count - 1))
  {
  }

  /**
   * The descriptor loops of `InterfaceDescriptor` and
   * `ConfigurationDescriptor`: parse `count` descriptors, advancing the
   * cursor by `stride` of each, and stop at the first that fails.
   */
  method ParseRunLoop<T>(parse: int -> Result<T, DescriptorError>, stride: T -> nat, o: int, count: nat)
    returns (r: Result<seq<T>, DescriptorError>)
    ensures r == ParseRun(parse, stride, o, count)
  {
    var p := o;
    var items := [];
    var n := 0;
    PrependEmpty(ParseRun(parse, stride, p, count));
    while n < count
      invariant 0 <= n <= count
      invariant ParseRun(parse, stride, o, count) == Prepend(items, ParseRun(parse, stride, p, count - n))
    {
      var x := parse(p);
      if x.Failure? {
        return Failure(x.error);
      }
      ParseRunStep(parse, stride, p, count - n);
      PrependStep(items, x.value, ParseRun(parse, stride, p + stride(x.value), count - n - 1));
      items := items + [x.value];
      p := p + stride(x.value);
      n := n + 1;
    }
    assert items + [] == items;
    return Success(items);
  }

  function EndpointParser(data: seq<byte>): int -> Result<Endpoint, DescriptorError> {
    p => ParseEndpoint(data, p)
  }

  function EndpointStride(e: Endpoint): nat {
    EndpointLength
  }

  /** The endpoint list of an interface: `count` endpoints at 7-byte strides from o. */
  function EndpointsFrom(data: seq<byte>, o: int, count: nat): Result<seq<Endpoint>, DescriptorError> {
    ParseRun(EndpointParser(data), EndpointStride, o, count)
  }

  /** Where an interface's endpoints start: after the HID descriptor when it has one. */
  function EndpointsStart(data: seq<byte>, o: int): int {
    if ByteAt(data, o + 5) == HidClass then o + InterfaceLength + HidLength else o + InterfaceLength
  }

  /** `new InterfaceDescriptor(data, o)`, as a value. */
  function InterfaceAt(data: seq<byte>, o: int): Result<Interface, DescriptorError> {
    if ByteAt(data, o) != InterfaceLength then Failure(BadLength(o))
    else if ByteAt(data, o + 1) != InterfaceType then Failure(BadType(o + 1))
    else
      var cls := ByteAt(data, o + 5);
      var hid :- if cls == HidClass then
                   (var h :- ParseHid(data, o + InterfaceLength); Success(Some(h)))
                 else Success(None);
      var eps :- EndpointsFrom(data, EndpointsStart(data, o), ByteAt(data, o + 4));
      Success(Interface(ByteAt(data, o + 2), ByteAt(data, o + 3), cls, ByteAt(data, o + 6),
                        ByteAt(data, o + 7), ByteAt(data, o + 8), hid, eps))
  }

  /**
   * `new InterfaceDescriptor(data, o)`: the 9-byte header, the HID
   * descriptor when bInterfaceClass is 3, then bNumEndpoints endpoints.
   */
  method ParseInterfaceDescriptor(data: seq<byte>, o: int) returns (r: Result<Interface, DescriptorError>)
    ensures r == InterfaceAt(data, o)
  {
    var p := o;
    if ByteAt(data, p) != InterfaceLength {
      return Failure(BadLength(p));
    }
    p := p + 1;
    if ByteAt(data, p) != InterfaceType {
      return Failure(BadType(p));
    }
    p := p + 1;
    var interfaceNumber := ByteAt(data, p);
    var alternateSetting := ByteAt(data, p + 1);
    var endpointCount := ByteAt(data, p + 2);
    var interfaceClass := ByteAt(data, p + 3);
    var interfaceSubClass := ByteAt(data, p + 4);
    var interfaceProtocol := ByteAt(data, p + 5);
    var interfaceIndex := ByteAt(data, p + 6);
    p := p + 7;
    var hidDescriptor := None;
    if interfaceClass == HidClass {
      var h := ParseHid(data, p);
      if h.Failure? {
        return Failure(h.error);
      }
      hidDescriptor := Some(h.value);
      p := p + HidLength;
    }
    assert p == EndpointsStart(data, o);
    var endpoints := ParseRunLoop(EndpointParser(data), EndpointStride, p, endpointCount);
    if endpoints.Failure? {
      return Failure(endpoints.error);
    }
    return Success(Interface(interfaceNumber, alternateSetting, interfaceClass, interfaceSubClass,
                             interfaceProtocol, interfaceIndex, hidDescriptor, endpoints.value));
  }

  function InterfaceParser(data: seq<byte>): int -> Result<Interface, DescriptorError> {
    p => InterfaceAt(data, p)
  }

  /**
   * The interface list of a configuration: `count` interfaces from o, each
   * one 9 + 7 * (its endpoint count) bytes after the previous one.
   */
  function InterfacesFrom(data: seq<byte>, o: int, count: nat): Result<seq<Interface>, DescriptorError> {
    ParseRun(InterfaceParser(data), InterfaceStride, o, count)
  }

  /** The cursor step after an interface; the HID descriptor's bytes are not counted. */
  function InterfaceStride(i: Interface): nat {
    InterfaceLength + |i.endpoints| * EndpointLength
  }

  /** `new ConfigurationDescriptor(data)`, as a value. */
  function ConfigurationOf(data: seq<byte>): Result<Configuration, DescriptorError> {
    if ByteAt(data, 1) != ConfigurationType then Failure(BadType(1))
    else
      var interfaces :- InterfacesFrom(data, 9, ByteAt(data, 4));
      Success(Configuration(ByteAt(data, 5), ByteAt(data, 6), ByteAt(data, 7), ByteAt(data, 8), interfaces))
  }

  /**
   * `new ConfigurationDescriptor(data)`: bLength is skipped, wTotalLength is
   * read and dropped, then bNumInterfaces interfaces are parsed.
   */
  method ParseConfigurationDescriptor(data: seq<byte>) returns (r: Result<Configuration, DescriptorError>)
    ensures r == ConfigurationOf(data)
  {
    var p := 1;
    if ByteAt(data, p) != ConfigurationType {
      return Failure(BadType(p));
    }
    p := p + 1;
    var totalLength := DecodeUint16(data, p);
    p := p + 2;
    var interfaceCount := ByteAt(data, p);
    var configurationValue := ByteAt(data, p + 1);
    var configurationIndex := ByteAt(data, p + 2);
    var attributes := ByteAt(data, p + 3);
    var maxPower := ByteAt(data, p + 4);
    p := p + 5;
    var interfaces := ParseRunLoop(InterfaceParser(data), InterfaceStride, p, interfaceCount);
    if interfaces.Failure? {
      return Failure(interfaces.error);
    }
    return Success(Configuration(configurationValue, configurationIndex, attributes, maxPower, interfaces.value));
  }

  /** `new DeviceDescriptor(data)`: eighteen bytes, no header check. */
  function DeviceOf(data: seq<byte>): Device {
    Device(BcdString(DecodeUint16(data, 2)), ByteAt(data, 4), ByteAt(data, 5), ByteAt(data, 6),
           ByteAt(data, 7), DecodeUint16(data, 8), DecodeUint16(data, 10),
           BcdString(DecodeUint16(data, 12)), ByteAt(data, 14), ByteAt(data, 15),
           ByteAt(data, 16), ByteAt(data, 17))
  }

  // Properties of the parsers.

  /** The offsets at which a run reads each of its items, from o on. */
  function RunOffsets<T>(stride: T -> nat, o: int, items: seq<T>): (offsets: seq<int>)
    ensures |offsets| == |items|
    decreases |items|
  {
    if items == [] then [] else [o] + RunOffsets(stride, o + stride(items[0]), items[1..])
  }

  /** The first item is read at o, and each next one `stride` of the previous further on. */
  lemma {:induction false} RunOffsetsStride<T>(stride: T -> nat, o: int, items: seq<T>)
    ensures |items| > 0 ==> RunOffsets(stride, o, items)[0] == o
    ensures forall k :: 0 <= k < |items| - 1 ==>
              RunOffsets(stride, o, items)[k + 1] == RunOffsets(stride, o, items)[k] + stride(items[k])
    decreases |items|
  {
    if items != [] {
      var next := o + stride(items[0]);
      RunOffsetsStride(stride, next, items[1..]);
      var offsets := RunOffsets(stride, o, items);
      var tail := RunOffsets(stride, next, items[1..]);
      assert offsets == [o] + tail;
      forall k | 0 <= k < |items| - 1
        ensures offsets[k + 1] == offsets[k] + stride(items[k])
      {
        if k > 0 {
          assert items[k] == items[1..][k - 1];
        }
      }
    }
  }

  /** A run that succeeds holds `count` items, each the one parsed at its offset. */
  lemma {:induction false} ParseRunLayout<T>(parse: int -> Result<T, DescriptorError>, stride: T -> nat,
                                             o: int, count: nat, items: seq<T>)
    requires ParseRun(parse, stride, o, count) == Success(items)
    ensures |items| == count
    ensures forall k :: 0 <= k < count ==> Success(items[k]) == parse(RunOffsets(stride, o, items)[k])
    decreases count
  {
    if count > 0 {
      var x := parse(o).value;
      var next := o + stride(x);
      var rest := ParseRun(parse, stride, next, count - 1).value;
      assert items == [x] + rest;
      ParseRunLayout(parse, stride, next, count - 1, rest);
      assert items[1..] == rest;
      var offsets := RunOffsets(stride, o, items);
      var tail := RunOffsets(stride, next, rest);
      assert offsets == [o] + tail;
      forall k | 0 <= k < count
        ensures Success(items[k]) == parse(offsets[k])
      {
        if k > 0 {
          assert items[k] == rest[k - 1] && offsets[k] == tail[k - 1];
        }
      }
    }
  }

  /** Two parsers that agree from o on give the same run from o. */
  lemma {:induction false} ParseRunFrame<T>(parse1: int -> Result<T, DescriptorError>,
                                            parse2: int -> Result<T, DescriptorError>,
                                            stride: T -> nat, o: int, count: nat)
    requires forall q :: o <= q ==> parse1(q) == parse2(q)
    ensures ParseRun(parse1, stride, o, count) == ParseRun(parse2, stride, o, count)
    decreases count
  {
    if count > 0 && parse1(o).Success? {
      ParseRunFrame(parse1, parse2, stride, o + stride(parse1(o).value), count - 1);
    }
  }

  /** The offset of the k-th of a run of 7-byte endpoint descriptors starting at o. */
  function EndpointOffset(o: int, k: nat): int {
    o + EndpointLength * k
  }

  lemma {:induction false} EndpointOffsets(o: int, endpoints: seq<Endpoint>)
    ensures forall k :: 0 <= k < |endpoints| ==> RunOffsets(EndpointStride, o, endpoints)[k] == EndpointOffset(o, k)
    decreases |endpoints|
  {
    if endpoints != [] {
      EndpointOffsets(o + EndpointLength, endpoints[1..]);
      var offsets := RunOffsets(EndpointStride, o, endpoints);
      var tail := RunOffsets(EndpointStride, o + EndpointLength, endpoints[1..]);
      assert offsets == [o] + tail;
      forall k | 0 <= k < |endpoints|
        ensures offsets[k] == EndpointOffset(o, k)
      {
        if k > 0 {
          assert offsets[k] == tail[k - 1];
        }
      }
    }
  }

  /** The endpoint list parses iff every one of its `count` slots holds an endpoint header. */
  lemma {:induction false} EndpointsFromSucceeds(data: seq<byte>, o: int, count: nat)
    ensures EndpointsFrom(data, o, count).Success? <==>
            forall k :: 0 <= k < count ==> ParseEndpoint(data, EndpointOffset(o, k)).Success?
    decreases count
  {
    if count > 0 {
      EndpointsFromSucceeds(data, o + EndpointLength, count - 1);
      assert EndpointsFrom(data, o, count).Success? <==>
             ParseEndpoint(data, o).Success? && EndpointsFrom(data, o + EndpointLength, count - 1).Success?;
      assert EndpointOffset(o, 0) == o;
      forall k | 1 <= k < count
        ensures EndpointOffset(o, k) == EndpointOffset(o + EndpointLength, k - 1)
      {
      }
      if EndpointsFrom(data, o, count).Success? {
        forall k | 0 <= k < count
          ensures ParseEndpoint(data, EndpointOffset(o, k)).Success?
        {
          if k > 0 {
            assert ParseEndpoint(data, EndpointOffset(o + EndpointLength, k - 1)).Success?;
          }
        }
      } else if ParseEndpoint(data, o).Success? {
        var k :| 0 <= k < count - 1 && !ParseEndpoint(data, EndpointOffset(o + EndpointLength, k)).Success?;
        assert !ParseEndpoint(data, EndpointOffset(o, k + 1)).Success?;
      }
    }
  }

  /** A parsed endpoint list holds exactly `count` endpoints, the k-th at o + 7k. */
  lemma EndpointsFromLayout(data: seq<byte>, o: int, count: nat, endpoints: seq<Endpoint>)
    requires EndpointsFrom(data, o, count) == Success(endpoints)
    ensures |endpoints| == count
    ensures forall k :: 0 <= k < count ==> Success(endpoints[k]) == ParseEndpoint(data, EndpointOffset(o, k))
  {
    ParseRunLayout(EndpointParser(data), EndpointStride, o, count, endpoints);
    EndpointOffsets(o, endpoints);
  }

  /**
   * An interface parses iff its header is (9, 4), its HID descriptor parses
   * when bInterfaceClass is 3, and each of its bNumEndpoints endpoint slots
   * holds an endpoint header.
   */
  lemma InterfaceSucceeds(data: seq<byte>, o: int)
    ensures InterfaceAt(data, o).Success? <==>
      ByteAt(data, o) == InterfaceLength && ByteAt(data, o + 1) == InterfaceType &&
      (ByteAt(data, o + 5) == HidClass ==> ParseHid(data, o + InterfaceLength).Success?) &&
      forall k :: 0 <= k < ByteAt(data, o + 4) ==> ParseEndpoint(data, EndpointOffset(EndpointsStart(data, o), k)).Success?
  {
    EndpointsFromSucceeds(data, EndpointsStart(data, o), ByteAt(data, o + 4));
  }

  /**
   * A parsed interface has exactly bNumEndpoints endpoints at 7-byte strides
   * after its header (and after its HID descriptor when it has one), and has
   * a HID descriptor iff bInterfaceClass is 3.
   */
  lemma InterfaceLayout(data: seq<byte>, o: int)
    requires InterfaceAt(data, o).Success?
    ensures var i := InterfaceAt(data, o).value;
      && |i.endpoints| == ByteAt(data, o + 4)
      && i.interfaceClass == ByteAt(data, o + 5)
      && (i.hidDescriptor.Some? <==> i.interfaceClass == HidClass)
      && (i.hidDescriptor.Some? ==> i.hidDescriptor == Some(ParseHid(data, o + InterfaceLength).value))
      && EndpointsStart(data, o) == o + InterfaceLength + (if i.hidDescriptor.Some? then HidLength else 0)
      && forall k :: 0 <= k < |i.endpoints| ==>
           Success(i.endpoints[k]) == ParseEndpoint(data, EndpointOffset(EndpointsStart(data, o), k))
  {
    var i := InterfaceAt(data, o).value;
    EndpointsFromLayout(data, EndpointsStart(data, o), ByteAt(data, o + 4), i.endpoints);
  }

  /**
   * The configuration parser steps over an interface by 9 + 7 * endpoints
   * bytes, while the interface occupies 9 more when it carries a HID
   * descriptor: the next interface is then looked for 9 bytes too early.
   */
  lemma InterfaceStrideSkipsHid(data: seq<byte>, o: int)
    requires InterfaceAt(data, o).Success?
    ensures var i := InterfaceAt(data, o).value;
      var occupied := EndpointOffset(EndpointsStart(data, o), |i.endpoints|) - o;
      InterfaceStride(i) == occupied - (if i.hidDescriptor.Some? then HidLength else 0)
  {
    InterfaceLayout(data, o);
  }

  /** The offsets at which the configuration parser reads its interfaces. */
  function InterfaceOffsets(interfaces: seq<Interface>): (offsets: seq<int>)
    ensures |offsets| == |interfaces|
  {
    RunOffsets(InterfaceStride, 9, interfaces)
  }

  /**
   * A configuration parses only when bDescriptorType is 2, and then holds
   * exactly bNumInterfaces interfaces: the first is read at byte 9 and each
   * next one 9 + 7 * (endpoints of the previous one) bytes further, with no
   * room left for a HID descriptor.
   */
  lemma ConfigurationLayout(data: seq<byte>)
    requires ConfigurationOf(data).Success?
    ensures ByteAt(data, 1) == ConfigurationType
    ensures var ifs := ConfigurationOf(data).value.interfaces;
      var offsets := InterfaceOffsets(ifs);
      && |ifs| == ByteAt(data, 4)
      && (|ifs| > 0 ==> offsets[0] == 9)
      && (forall k :: 0 <= k < |ifs| - 1 ==>
            offsets[k + 1] == offsets[k] + InterfaceLength + EndpointLength * |ifs[k].endpoints|)
      && forall k :: 0 <= k < |ifs| ==> Success(ifs[k]) == InterfaceAt(data, offsets[k])
  {
    var ifs := ConfigurationOf(data).value.interfaces;
    ParseRunLayout(InterfaceParser(data), InterfaceStride, 9, ByteAt(data, 4), ifs);
    RunOffsetsStride(InterfaceStride, 9, ifs);
  }

  /** `a` and `b` hold the same bytes from index o on. */
  ghost predicate AgreeFrom(a: seq<byte>, b: seq<byte>, o: int) {
    forall i :: o <= i ==> ByteAt(a, i) == ByteAt(b, i)
  }

  lemma EndpointFrame(a: seq<byte>, b: seq<byte>, o: int)
    requires AgreeFrom(a, b, o)
    ensures ParseEndpoint(a, o) == ParseEndpoint(b, o)
  {
    assert ByteAt(a, o) == ByteAt(b, o) && ByteAt(a, o + 1) == ByteAt(b, o + 1);
    assert ByteAt(a, o + 2) == ByteAt(b, o + 2) && ByteAt(a, o + 3) == ByteAt(b, o + 3);
    assert ByteAt(a, o + 4) == ByteAt(b, o + 4) && ByteAt(a, o + 5) == ByteAt(b, o + 5);
    assert ByteAt(a, o + 6) == ByteAt(b, o + 6);
  }

  lemma EndpointsFromFrame(a: seq<byte>, b: seq<byte>, o: int, count: nat)
    requires AgreeFrom(a, b, o)
    ensures EndpointsFrom(a, o, count) == EndpointsFrom(b, o, count)
  {
    forall q | o <= q
      ensures EndpointParser(a)(q) == EndpointParser(b)(q)
    {
      EndpointFrame(a, b, q);
    }
    ParseRunFrame(EndpointParser(a), EndpointParser(b), EndpointStride, o, count);
  }

  lemma InterfaceFrame(a: seq<byte>, b: seq<byte>, o: int)
    requires AgreeFrom(a, b, o)
    ensures InterfaceAt(a, o) == InterfaceAt(b, o)
  {
    assert ParseHid(a, o + InterfaceLength) == ParseHid(b, o + InterfaceLength) by {
      var h := o + InterfaceLength;
      assert DecodeUint16(a, h + 2) == DecodeUint16(b, h + 2);
      assert DecodeUint16(a, h + 7) == DecodeUint16(b, h + 7);
    }
    assert EndpointsStart(a, o) == EndpointsStart(b, o);
    EndpointsFromFrame(a, b, EndpointsStart(a, o), ByteAt(a, o + 4));
  }

  /**
   * bLength (byte 0) and wTotalLength (bytes 2 and 3) are never consulted:
   * two buffers that differ only there parse to the same configuration.
   */
  lemma ConfigurationIgnoresTotalLength(a: seq<byte>, b: seq<byte>)
    requires ByteAt(a, 1) == ByteAt(b, 1)
    requires AgreeFrom(a, b, 4)
    ensures ConfigurationOf(a) == ConfigurationOf(b)
  {
    assert forall j :: 4 <= j < 9 ==> ByteAt(a, j) == ByteAt(b, j);
    forall q | 9 <= q
      ensures InterfaceParser(a)(q) == InterfaceParser(b)(q)
    {
      InterfaceFrame(a, b, q);
    }
    ParseRunFrame(InterfaceParser(a), InterfaceParser(b), InterfaceStride, 9, ByteAt(a, 4));
  }
}
