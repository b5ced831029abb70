/**
 * `HidReportDescriptor`: the walk over the short items of a HID report
 * descriptor (HID 1.11 section 6.2.2), keeping the global registers, a
 * stack of collections and the flat list of reports, then the per-report
 * `totalSize` pass.
 *
 * The JavaScript builds a tree of plain objects that share report objects
 * between the flat list and the collections' lists.  Here the collections
 * live in an arena (`collections`, the root at index 0) and refer to each
 * other and to reports by index, so the sharing is kept: a collection's
 * report list holds indices into the one flat report list.
 */
module HidReport {
  import opened Wrappers
  import opened JsBits
  import opened ByteData

  const LongItemPrefix: byte := 0xFE

  /** bSize, bType and bTag of a short item's prefix byte (HID 1.11 section 6.2.2.2). */
  function ItemSize(b0: byte): nat { b0 % 4 }
  function ItemType(b0: byte): nat { b0 / 4 % 4 }
  function ItemTag(b0: byte): nat { b0 / 16 }

  /** The driver's `b0 >> 4`, `(b0 >> 2) & 0x3` and `b0 & 0x3` are the three prefix fields. */
  lemma ItemFieldsAsWritten(b0: byte)
    ensures Sar(b0, 4) == ItemTag(b0) && ItemTag(b0) < 16
    ensures BitAnd(Sar(b0, 2), 0x3) == ItemType(b0) && ItemType(b0) < 4
    ensures BitAnd(b0, 0x3) == ItemSize(b0) && ItemSize(b0) < 4
    ensures b0 == ItemTag(b0) * 16 + ItemType(b0) * 4 + ItemSize(b0)
  {
    TagAsWritten(b0);
    TypeAsWritten(b0);
    SizeAsWritten(b0);
    PrefixDecomposes(b0);
  }

  lemma PrefixDecomposes(b0: byte)
    ensures b0 == ItemTag(b0) * 16 + ItemType(b0) * 4 + ItemSize(b0)
  {
    assert b0 == b0 / 4 * 4 + b0 % 4;
    assert b0 / 4 == b0 / 16 * 4 + b0 / 4 % 4;
  }

  lemma TagAsWritten(b0: byte)
    ensures Sar(b0, 4) == b0 / 16
  {
    Pow2Values();
    SarSmall(b0, 4);
  }

  lemma TypeAsWritten(b0: byte)
    ensures BitAnd(Sar(b0, 2), 0x3) == b0 / 4 % 4
  {
    var high := Sar(b0, 2);
    assert high == b0 / 4 by {
      Pow2Values();
      SarSmall(b0, 2);
    }
    assert BitAnd(high, 0x3) == high % 4 by {
      Pow2Values();
      AndOfLowMask(high, 2);
    }
  }

  lemma SizeAsWritten(b0: byte)
    ensures BitAnd(b0, 0x3) == b0 % 4
  {
    Pow2Values();
    AndOfLowMask(b0, 2);
  }

  /**
   * `readData`: no data, one byte, a little-endian pair, or, for size code
   * 3, byte 0 with bytes 1 and 2 both placed at bits 8 to 15.
   */
  function ReadData(itemSize: nat, data: seq<byte>, o: int): (v: nat)
    ensures v < 0x1_0000
  {
    if itemSize == 0 then 0
    else if itemSize == 1 then ByteAt(data, o)
    else if itemSize == 2 then DecodeUint16(data, o)
    else
      Pow2Values();
      OrBound(ByteAt(data, o + 1), ByteAt(data, o + 2), 8);
      ByteAt(data, o) + 0x100 * NatOr(ByteAt(data, o + 1), ByteAt(data, o + 2))
  }

  /** The driver's `data[o] | (data[o + 1] << 8) | (data[o + 2] << 8)` is the size-3 case of ReadData. */
  lemma ReadDataAsWritten(data: seq<byte>, o: int)
    ensures BitOr(BitOr(ByteAt(data, o), Shl(ByteAt(data, o + 1), 8)), Shl(ByteAt(data, o + 2), 8))
            == ReadData(3, data, o)
  {
    var b0: nat, b1: nat, b2: nat := ByteAt(data, o), ByteAt(data, o + 1), ByteAt(data, o + 2);
    var low := BitOr(b0, Shl(b1, 8));
    assert low == b0 + b1 * 0x100 by {
      Pow2Values();
      ShlSmall(b1, 8);
      OrOfDisjoint(b1, b0, 8);
    }
    var high := Shl(b2, 8);
    assert high == b2 * 0x100 by {
      Pow2Values();
      ShlSmall(b2, 8);
    }
    ReadDataOrStep(b0, b1, b2, low, high);
  }

  lemma ReadDataOrStep(b0: byte, b1: byte, b2: byte, low: int, high: int)
    requires low == b0 + b1 * 0x100 && high == b2 * 0x100
    ensures BitOr(low, high) == b0 + 0x100 * NatOr(b1, b2)
  {
    Pow2Values();
    OrBound(b1, b2, 8);
    assert NatOr(b0 + b1 * 0x100, b2 * 0x100) == b0 + NatOr(b1, b2) * 0x100 by {
      LowOrShifted(b0, b1, b2);
    }
    Int32OfSmall(low);
    Int32OfSmall(high);
    Int32OfSmall(b0 + NatOr(b1, b2) * 0x100);
  }

  lemma LowOrShifted(b0: nat, b1: nat, b2: nat)
    requires b0 < 0x100
    ensures NatOr(b0 + b1 * 0x100, b2 * 0x100) == b0 + NatOr(b1, b2) * 0x100
  {
    Pow2Values();
    ShiftedIsProduct(b1, 8);
    ShiftedIsProduct(b2, 8);
    ShiftedIsProduct(NatOr(b1, b2), 8);
    OrShiftLow(b0, b1, b2, 8);
  }

  /** The value a 4-byte item carries under HID 1.11: its four bytes, little-endian. */
  function FourByteValue(data: seq<byte>, o: int): nat {
    DecodeUint16(data, o) + 0x1_0000 * DecodeUint16(data, o + 2)
  }

  /**
   * Size code 3 stands for four data bytes; the driver's value agrees with
   * the standard one exactly when the two high bytes are zero.
   */
  lemma ReadDataFourBytes(data: seq<byte>, o: int)
    ensures ReadData(3, data, o) == FourByteValue(data, o)
            <==> ByteAt(data, o + 2) == 0 && ByteAt(data, o + 3) == 0
  {
    if ByteAt(data, o + 2) == 0 {
      OrZero(ByteAt(data, o + 1));
    }
  }

  /** The key a collection is stored under in its parent: the names of types 0 to 6, else the type itself. */
  datatype CollectionKind =
    | Physical | Application | Logical | ReportKind | NamedArray | UsageSwitch | UsageModifier
    | OtherKind(code: byte)

  function KindOf(code: byte): CollectionKind {
    match code
    case 0 => Physical
    case 1 => Application
    case 2 => Logical
    case 3 => ReportKind
    case 4 => NamedArray
    case 5 => UsageSwitch
    case 6 => UsageModifier
    case _ => OtherKind(code)
  }

  /**
   * A collection object: its sub-collections by kind, and its `reports`
   * list, which the root (created as `{}`) does not have.
   */
  datatype Collection = Collection(children: map<CollectionKind, nat>, reports: Option<seq<nat>>)

  /** The registers a main item records. */
  datatype Field = Field(usage: int, logicalMin: int, logicalMax: int, reportSize: int, reportCount: int)

  datatype Report = Report(reportId: int, inputs: seq<Field>, outputs: seq<Field>, features: seq<Field>)

  datatype MainKind = Input | Output | Feature

  datatype ReportError =
    | LongItem(offset: nat)              // a 0xFE prefix: the driver asserts false
    | NoCurrentReport(offset: nat)       // a main item before any Report ID: `null.inputs`
    | NoCurrentCollection(offset: nat)   // `current` is undefined after too many End Collections
    | NoReportList(offset: nat)          // a Report ID while `current` is the root, which has no `reports`
    | MissingCollectionType(offset: nat) // a Collection item at the very end: `undefined.toString(16)`
    | Unbalanced(depth: nat)             // the final `stack.length == 1` assertion

  /** The local variables of the parse loop. */
  datatype ParserState = ParserState(
    collections: seq<Collection>,
    stack: seq<nat>,
    current: Option<nat>,
    usagePage: int,
    usage: int,
    currentReport: Option<nat>,
    logicalMin: int,
    logicalMax: int,
    reportSize: int,
    reportCount: int,
    reports: seq<Report>)

  predicate RefsWithin(c: Collection, collectionCount: nat, reportCount: nat) {
    && (forall k :: k in c.children ==> c.children[k] < collectionCount)
    && (c.reports.Some? ==> forall j :: 0 <= j < |c.reports.value| ==> c.reports.value[j] < reportCount)
  }

  /** Every index the state holds names an existing collection or report. */
  predicate Valid(st: ParserState) {
    && |st.collections| > 0
    && (forall k :: 0 <= k < |st.stack| ==> st.stack[k] < |st.collections|)
    && (st.current.Some? ==> st.current.value < |st.collections|)
    && (st.currentReport.Some? ==> st.currentReport.value < |st.reports|)
    && (forall n :: 0 <= n < |st.collections| ==> RefsWithin(st.collections[n], |st.collections|, |st.reports|))
  }

  /** The state before the first item: the root alone on the stack, every register 0, no report. */
  function Initial(): (st: ParserState)
    ensures Valid(st)
  {
    ParserState([Collection(map[], None)], [0], Some(0), 0, 0, None, 0, 0, 0, 0, [])
  }

  function FieldOf(st: ParserState): Field {
    Field(st.usage, st.logicalMin, st.logicalMax, st.reportSize, st.reportCount)
  }

  function AddField(r: Report, kind: MainKind, f: Field): Report {
    match kind
    case Input => r.(inputs := r.inputs + [f])
    case Output => r.(outputs := r.outputs + [f])
    case Feature => r.(features := r.features + [f])
  }

  /** Report i of `after` is report i of `before` with possibly more fields appended. */
  predicate ReportGrows(before: Report, after: Report) {
    && after.reportId == before.reportId
    && before.inputs <= after.inputs
    && before.outputs <= after.outputs
    && before.features <= after.features
  }

  /** Reports are only ever added, and fields only ever appended to them. */
  predicate ReportsGrow(before: ParserState, after: ParserState) {
    && |before.reports| <= |after.reports|
    && forall i :: 0 <= i < |before.reports| ==> ReportGrows(before.reports[i], after.reports[i])
  }

  lemma ReportsGrowTransitive(a: ParserState, b: ParserState, c: ParserState)
    requires ReportsGrow(a, b) && ReportsGrow(b, c)
    ensures ReportsGrow(a, c)
  {
    forall i | 0 <= i < |a.reports| ensures ReportGrows(a.reports[i], c.reports[i]) {
      assert ReportGrows(b.reports[i], c.reports[i]);
    }
  }

  /** Input, Output or Feature: one field appended to the current report. */
  function MainField(st: ParserState, kind: MainKind, o: nat): (r: Result<ParserState, ReportError>)
    requires Valid(st)
    ensures r.Success? ==> Valid(r.value) && ReportsGrow(st, r.value)
  {
    if st.currentReport.None? then Failure(NoCurrentReport(o))
    else
      var i := st.currentReport.value;
      Success(st.(reports := st.reports[i := AddField(st.reports[i], kind, FieldOf(st))]))
  }

  /**
   * Collection: a new collection with an empty report list is pushed, stored
   * in the current one under its kind (replacing any earlier one of that
   * kind) and becomes current.  The type byte is read even when the item
   * carries no data.
   */
  function BeginCollection(data: seq<byte>, o: nat, st: ParserState): (r: Result<ParserState, ReportError>)
    requires Valid(st)
    ensures r.Success? ==> Valid(r.value) && ReportsGrow(st, r.value)
  {
    if o + 1 >= |data| then Failure(MissingCollectionType(o))
    else if st.current.None? then Failure(NoCurrentCollection(o))
    else
      var n := |st.collections|;
      var c := st.current.value;
      var parent := st.collections[c].(children := st.collections[c].children[KindOf(data[o + 1]) := n]);
      Success(st.(collections := st.collections[c := parent] + [Collection(map[], Some([]))],
                  stack := st.stack + [n],
                  current := Some(n)))
  }

  /** End Collection: `current = stack.pop()`, undefined once the stack is empty. */
  function EndCollection(st: ParserState): (r: ParserState)
    requires Valid(st)
    ensures Valid(r) && ReportsGrow(st, r)
  {
    if st.stack == [] then st.(current := None)
    else st.(current := Some(st.stack[|st.stack| - 1]), stack := st.stack[..|st.stack| - 1])
  }

  /** Report ID: a new empty report, appended to the flat list and to the current collection's list. */
  function BeginReport(st: ParserState, id: int, o: nat): (r: Result<ParserState, ReportError>)
    requires Valid(st)
    ensures r.Success? ==> Valid(r.value) && ReportsGrow(st, r.value)
  {
    if st.current.None? then Failure(NoCurrentCollection(o))
    else
      var c := st.current.value;
      var node := st.collections[c];
      if node.reports.None? then Failure(NoReportList(o))
      else
        var i := |st.reports|;
        Success(st.(reports := st.reports + [Report(id, [], [], [])],
                    collections := st.collections[c := node.(reports := Some(node.reports.value + [i]))],
                    currentReport := Some(i)))
  }

  function MainItem(data: seq<byte>, o: nat, tag: nat, st: ParserState): (r: Result<ParserState, ReportError>)
    requires Valid(st)
    ensures r.Success? ==> Valid(r.value) && ReportsGrow(st, r.value)
  {
    if tag == 0x8 then MainField(st, Input, o)
    else if tag == 0x9 then MainField(st, Output, o)
    else if tag == 0xB then MainField(st, Feature, o)
    else if tag == 0xA then BeginCollection(data, o, st)
    else if tag == 0xC then Success(EndCollection(st))
    else Success(st)
  }

  function GlobalItem(tag: nat, value: nat, st: ParserState, o: nat): (r: Result<ParserState, ReportError>)
    requires Valid(st)
    ensures r.Success? ==> Valid(r.value) && ReportsGrow(st, r.value)
  {
    if tag == 0x0 then Success(st.(usagePage := value))
    else if tag == 0x1 then Success(st.(logicalMin := value))
    else if tag == 0x2 then Success(st.(logicalMax := value))
    else if tag == 0x7 then Success(st.(reportSize := value))
    else if tag == 0x8 then BeginReport(st, value, o)
    else if tag == 0x9 then Success(st.(reportCount := value))
    else Success(st)
  }

  /** `usage = (usagePage << 16) | value`; it is never cleared. */
  function LocalItem(tag: nat, value: nat, st: ParserState): ParserState {
    if tag == 0x0 then st.(usage := BitOr(Shl(st.usagePage, 16), value)) else st
  }

  /** The effect of the short item whose prefix is at o. */
  function Step(data: seq<byte>, o: nat, st: ParserState): (r: Result<ParserState, ReportError>)
    requires Valid(st) && o < |data|
    ensures r.Success? ==> Valid(r.value) && ReportsGrow(st, r.value)
    ensures r.Failure? ==> !r.error.Unbalanced? && r.error.offset == o
  {
    var b0 := data[o];
    if b0 == LongItemPrefix then Failure(LongItem(o))
    else
      var kind := ItemType(b0);
      var value := ReadData(ItemSize(b0), data, o + 1);
      if kind == 0 then MainItem(data, o, ItemTag(b0), st)
      else if kind == 1 then GlobalItem(ItemTag(b0), value, st, o)
      else if kind == 2 then Success(LocalItem(ItemTag(b0), value, st))
      else Success(st)
  }

  /** Where the item whose prefix is at o ends: one prefix byte and bSize data bytes. */
  function NextItem(data: seq<byte>, o: nat): nat
    requires o < |data|
  {
    o + 1 + ItemSize(data[o])
  }

  /** The parse loop from offset o on. */
  function RunFrom(data: seq<byte>, o: nat, st: ParserState): (r: Result<ParserState, ReportError>)
    requires Valid(st)
    ensures r.Success? ==> Valid(r.value)
    decreases |data| - o
  {
    if o >= |data| then Success(st)
    else
      var next :- Step(data, o, st);
      RunFrom(data, NextItem(data, o), next)
  }

  /** What the constructor leaves behind: the collections, the reports, and each report's totalSize. */
  datatype ReportDescriptor = ReportDescriptor(collections: seq<Collection>, reports: seq<Report>, totalSizes: seq<real>)

  /** The bytes an input field occupies: `(reportSize / 8) * reportCount`. */
  function FieldBytes(f: Field): real {
    (f.reportSize as real / 8.0) * (f.reportCount as real)
  }

  /** The sum of FieldBytes over the inputs, added from the first on. */
  function TotalSize(inputs: seq<Field>): real {
    if inputs == [] then 0.0 else TotalSize(inputs[..|inputs| - 1]) + FieldBytes(inputs[|inputs| - 1])
  }

  /** Each report's `totalSize`. */
  function TotalSizes(reports: seq<Report>): seq<real> {
    seq(|reports|, n requires 0 <= n < |reports| => TotalSize(reports[n].inputs))
  }

  /** The whole constructor: the item loop, the depth check, the totalSize pass. */
  function ReportDescriptorOf(data: seq<byte>): Result<ReportDescriptor, ReportError> {
    var st :- RunFrom(data, 0, Initial());
    if |st.stack| != 1 then Failure(Unbalanced(|st.stack|))
    else Success(ReportDescriptor(st.collections, st.reports, TotalSizes(st.reports)))
  }

  // The imperative parser.

  method ComputeTotalSizes(reports: seq<Report>) returns (sizes: seq<real>)
    ensures sizes == TotalSizes(reports)
  {
    sizes := [];
    var n := 0;
    while n < |reports|
      invariant 0 <= n <= |reports| && |sizes| == n
      invariant forall j :: 0 <= j < n ==> sizes[j] == TotalSize(reports[j].inputs)
    {
      var inputs := reports[n].inputs;
      var totalSize := 0.0;
      var m := 0;
      while m < |inputs|
        invariant 0 <= m <= |inputs|
        invariant totalSize == TotalSize(inputs[..m])
      {
        assert inputs[..m + 1][..m] == inputs[..m];
        totalSize := totalSize + (inputs[m].reportSize as real / 8.0) * (inputs[m].reportCount as real);
        m := m + 1;
      }
      assert inputs[..m] == inputs;
      sizes := sizes + [totalSize];
      n := n + 1;
    }
  }

  method ParseReportDescriptor(data: seq<byte>) returns (r: Result<ReportDescriptor, ReportError>)
    ensures r == ReportDescriptorOf(data)
  {
    var st := Initial();
    var o := 0;
    while o < |data|
      invariant Valid(st)
      invariant RunFrom(data, 0, Initial()) == RunFrom(data, o, st)
      decreases |data| - o
    {
      var next := Step(data, o, st);
      if next.Failure? {
        return Failure(next.error);
      }
      st := next.value;
      o := NextItem(data, o);
    }
    if |st.stack| != 1 {
      return Failure(Unbalanced(|st.stack|));
    }
    var sizes := ComputeTotalSizes(st.reports);
    r := Success(ReportDescriptor(st.collections, st.reports, sizes));
  }
}

module HidReportProperties {
  import opened Wrappers
  import opened JsBits
  import opened ByteData
  import opened HidReport

  lemma RunFromStep(data: seq<byte>, o: nat, st: ParserState, after: ParserState)
    requires Valid(st) && o < |data| && Step(data, o, st) == Success(after)
    ensures RunFrom(data, o, st) == RunFrom(data, NextItem(data, o), after)
  {
  }

  lemma DescriptorOfRun(data: seq<byte>, st: ParserState)
    requires RunFrom(data, 0, Initial()) == Success(st) && |st.stack| == 1
    ensures ReportDescriptorOf(data) == Success(ReportDescriptor(st.collections, st.reports, TotalSizes(st.reports)))
  {
  }

  /** The only long-item failure is a 0xFE prefix at an item boundary the loop reached. */
  lemma {:induction false} LongItemOnlyAtPrefix(data: seq<byte>, o: nat, st: ParserState, p: nat)
    requires Valid(st)
    requires RunFrom(data, o, st) == Failure(LongItem(p))
    ensures o <= p < |data| && data[p] == LongItemPrefix
    decreases |data| - o
  {
    var r := Step(data, o, st);
    if r.Success? {
      LongItemOnlyAtPrefix(data, NextItem(data, o), r.value, p);
    }
  }

  /** Over a whole run, reports are only added and fields only appended. */
  lemma {:induction false} RunReportsGrow(data: seq<byte>, o: nat, st: ParserState)
    requires Valid(st) && RunFrom(data, o, st).Success?
    ensures ReportsGrow(st, RunFrom(data, o, st).value)
    decreases |data| - o
  {
    if o < |data| {
      var next := Step(data, o, st).value;
      RunReportsGrow(data, NextItem(data, o), next);
      ReportsGrowTransitive(st, next, RunFrom(data, o, st).value);
    } else {
      assert RunFrom(data, o, st).value == st;
    }
  }

  /** The descriptor is refused for imbalance exactly when the loop ends with other than one entry on the stack. */
  lemma DepthChecked(data: seq<byte>, depth: nat)
    ensures ReportDescriptorOf(data) == Failure(Unbalanced(depth))
            <==> RunFrom(data, 0, Initial()).Success? && |RunFrom(data, 0, Initial()).value.stack| == depth != 1
  {
    UnbalancedNotFromRun(data, 0, Initial());
  }

  /** The loop itself never reports imbalance. */
  lemma {:induction false} UnbalancedNotFromRun(data: seq<byte>, o: nat, st: ParserState)
    requires Valid(st)
    ensures RunFrom(data, o, st).Failure? ==> !RunFrom(data, o, st).error.Unbalanced?
    decreases |data| - o
  {
    if o < |data| && Step(data, o, st).Success? {
      UnbalancedNotFromRun(data, NextItem(data, o), Step(data, o, st).value);
    }
  }

  /** The field list of a report that a main item of the given kind appends to. */
  function FieldsOf(r: Report, kind: MainKind): seq<Field> {
    match kind
    case Input => r.inputs
    case Output => r.outputs
    case Feature => r.features
  }

  function MainTag(kind: MainKind): nat {
    match kind
    case Input => 0x8
    case Output => 0x9
    case Feature => 0xB
  }

  /**
   * Input, Output, Feature: refused before any Report ID; otherwise exactly
   * one field, carrying the current registers, is appended to the matching
   * list of the current report, and nothing else changes (the usage
   * register included).
   */
  lemma MainItemAppendsField(data: seq<byte>, o: nat, st: ParserState, kind: MainKind)
    requires Valid(st) && o < |data| && data[o] != LongItemPrefix
    requires ItemType(data[o]) == 0 && ItemTag(data[o]) == MainTag(kind)
    ensures Step(data, o, st).Success? <==> st.currentReport.Some?
    ensures st.currentReport.None? ==> Step(data, o, st) == Failure(NoCurrentReport(o))
    ensures st.currentReport.Some? ==>
      var after := Step(data, o, st).value;
      var i := st.currentReport.value;
      && |after.reports| == |st.reports|
      && after.reports[i].reportId == st.reports[i].reportId
      && FieldsOf(after.reports[i], kind)
         == FieldsOf(st.reports[i], kind) + [Field(st.usage, st.logicalMin, st.logicalMax, st.reportSize, st.reportCount)]
      && (forall other :: other != kind ==> FieldsOf(after.reports[i], other) == FieldsOf(st.reports[i], other))
      && (forall j :: 0 <= j < |st.reports| && j != i ==> after.reports[j] == st.reports[j])
      && after == st.(reports := after.reports)
  {
  }

  /** Appending one input adds its bytes to the total. */
  lemma TotalSizeAppend(inputs: seq<Field>, f: Field)
    ensures TotalSize(inputs + [f]) == TotalSize(inputs) + FieldBytes(f)
  {
    assert (inputs + [f])[..|inputs|] == inputs;
  }

  /**
   * Only Input items count towards `totalSize`: an Input item adds the
   * bytes of its new field to the current report's total, while Output and
   * Feature items leave every total as it was.
   */
  lemma MainItemTotals(data: seq<byte>, o: nat, st: ParserState, kind: MainKind)
    requires Valid(st) && o < |data| && data[o] != LongItemPrefix
    requires ItemType(data[o]) == 0 && ItemTag(data[o]) == MainTag(kind)
    ensures Step(data, o, st).Success? ==>
      var after := Step(data, o, st).value;
      var i := st.currentReport.value;
      var added := if kind == Input then FieldBytes(FieldOf(st)) else 0.0;
      TotalSizes(after.reports) == TotalSizes(st.reports)[i := TotalSizes(st.reports)[i] + added]
  {
    MainItemAppendsField(data, o, st, kind);
    if Step(data, o, st).Success? {
      var after := Step(data, o, st).value;
      var i := st.currentReport.value;
      if kind == Input {
        TotalSizeAppend(st.reports[i].inputs, FieldOf(st));
      } else {
        assert FieldsOf(after.reports[i], Input) == FieldsOf(st.reports[i], Input);
      }
    }
  }

  /** A Report ID starts a new report whose total is 0 and leaves the other totals as they were. */
  lemma ReportIdTotals(data: seq<byte>, o: nat, st: ParserState)
    requires Valid(st) && o < |data| && data[o] != LongItemPrefix
    requires ItemType(data[o]) == 1 && ItemTag(data[o]) == 0x8
    ensures Step(data, o, st).Success? ==>
      TotalSizes(Step(data, o, st).value.reports) == TotalSizes(st.reports) + [0.0]
  {
    ReportIdAppendsReport(data, o, st);
  }

  /**
   * Report ID: refused unless the current collection has a report list (the
   * root has none); otherwise one new empty report is appended to the flat
   * list and its index to the current collection's list, and it becomes the
   * current report.  Nothing else changes.
   */
  lemma ReportIdAppendsReport(data: seq<byte>, o: nat, st: ParserState)
    requires Valid(st) && o < |data| && data[o] != LongItemPrefix
    requires ItemType(data[o]) == 1 && ItemTag(data[o]) == 0x8
    ensures Step(data, o, st).Success? <==> st.current.Some? && st.collections[st.current.value].reports.Some?
    ensures Step(data, o, st).Success? ==>
      var after := Step(data, o, st).value;
      var c := st.current.value;
      var i := |st.reports|;
      && after.reports == st.reports + [Report(ReadData(ItemSize(data[o]), data, o + 1), [], [], [])]
      && after.collections[c].reports == Some(st.collections[c].reports.value + [i])
      && after.collections[c].children == st.collections[c].children
      && |after.collections| == |st.collections|
      && (forall n :: 0 <= n < |st.collections| && n != c ==> after.collections[n] == st.collections[n])
      && after.currentReport == Some(i)
      && after == st.(reports := after.reports, collections := after.collections, currentReport := after.currentReport)
  {
  }

  /** A Report ID before any collection is refused: the root object has no `reports` list. */
  lemma ReportIdAtRootRefused(data: seq<byte>)
    requires |data| > 0 && data[0] != LongItemPrefix
    requires ItemType(data[0]) == 1 && ItemTag(data[0]) == 0x8
    ensures ReportDescriptorOf(data) == Failure(NoReportList(0))
  {
    ReportIdAppendsReport(data, 0, Initial());
  }

  /**
   * Collection: refused when the type byte is missing or `current` is
   * undefined; otherwise a new collection with an empty report list is
   * pushed and becomes current, and the current one now holds it under its
   * kind, in place of any earlier collection of that kind.
   */
  lemma CollectionStoredUnderKind(data: seq<byte>, o: nat, st: ParserState)
    requires Valid(st) && o < |data| && data[o] != LongItemPrefix
    requires ItemType(data[o]) == 0 && ItemTag(data[o]) == 0xA
    ensures Step(data, o, st).Success? <==> o + 1 < |data| && st.current.Some?
    ensures o + 1 == |data| ==> Step(data, o, st) == Failure(MissingCollectionType(o))
    ensures Step(data, o, st).Success? ==>
      var after := Step(data, o, st).value;
      var c := st.current.value;
      var n := |st.collections|;
      var kind := KindOf(data[o + 1]);
      && after.collections == after.collections[..n] + [Collection(map[], Some([]))]
      && after.stack == st.stack + [n]
      && after.current == Some(n)
      && after.collections[c].children.Keys == st.collections[c].children.Keys + {kind}
      && after.collections[c].children[kind] == n
      && (kind in st.collections[c].children ==> after.collections[c].children[kind] != st.collections[c].children[kind])
      && (forall k :: k in st.collections[c].children && k != kind ==>
            after.collections[c].children[k] == st.collections[c].children[k])
      && after.collections[c].reports == st.collections[c].reports
      && (forall m :: 0 <= m < n && m != c ==> after.collections[m] == st.collections[m])
      && after.reports == st.reports
  {
    if Step(data, o, st).Success? {
      var c, kind := st.current.value, KindOf(data[o + 1]);
      if kind in st.collections[c].children {
        assert RefsWithin(st.collections[c], |st.collections|, |st.reports|);
      }
    }
  }

  /**
   * End Collection right after a Collection: the stack is back where it
   * was, but `current` stays on the collection just closed instead of
   * returning to its parent.
   */
  lemma EndCollectionKeepsChild(data: seq<byte>, o: nat, st: ParserState)
    requires Valid(st) && o < |data| && data[o] != LongItemPrefix
    requires ItemType(data[o]) == 0 && ItemTag(data[o]) == 0xA
    requires o + 1 < |data| && st.current.Some?
    requires NextItem(data, o) < |data|
    requires data[NextItem(data, o)] != LongItemPrefix
    requires ItemType(data[NextItem(data, o)]) == 0 && ItemTag(data[NextItem(data, o)]) == 0xC
    ensures Step(data, o, st).Success?
    ensures var begun := Step(data, o, st).value;
      && Step(data, NextItem(data, o), begun).Success?
      && var closed := Step(data, NextItem(data, o), begun).value;
      && closed.stack == st.stack
      && closed.current == Some(|st.collections|)
      && closed.current != st.current
  {
    CollectionStoredUnderKind(data, o, st);
    var begun := Step(data, o, st).value;
    assert begun.stack[..|begun.stack| - 1] == st.stack;
  }

  /**
   * End Collection with only the root on the stack is not refused at once:
   * the imbalance shows only in the final depth check.
   */
  lemma LoneEndCollection(data: seq<byte>)
    requires |data| == 1 && data[0] != LongItemPrefix
    requires ItemType(data[0]) == 0 && ItemTag(data[0]) == 0xC && ItemSize(data[0]) == 0
    ensures Step(data, 0, Initial()).Success?
    ensures ReportDescriptorOf(data) == Failure(Unbalanced(0))
  {
    var after := Initial().(stack := [], current := Some(0));
    assert Step(data, 0, Initial()) == Success(after);
    assert NextItem(data, 0) == 1;
    assert RunFrom(data, 1, after) == Success(after);
    assert RunFrom(data, 0, Initial()) == Success(after);
  }

  /**
   * Size code 3 moves the cursor 1 + 3 bytes, where HID 1.11 has four data
   * bytes: a 0xFE that the standard would read as the item's last data byte
   * is taken for a long-item prefix.
   */
  lemma SizeCodeThreeSkipsThree(data: seq<byte>, st: ParserState)
    requires Valid(st) && |data| == 5 && data[4] == LongItemPrefix
    requires ItemSize(data[0]) == 3 && Step(data, 0, st).Success?
    ensures RunFrom(data, 0, st) == Failure(LongItem(4))
  {
    assert NextItem(data, 0) == 4;
  }

  /** Usage: for a usage page below 0x8000 the usage is `page * 0x10000 + value`. */
  lemma UsageCombinesPage(data: seq<byte>, o: nat, st: ParserState)
    requires Valid(st) && o < |data| && data[o] != LongItemPrefix
    requires ItemType(data[o]) == 2 && ItemTag(data[o]) == 0x0
    requires 0 <= st.usagePage < 0x8000
    ensures Step(data, o, st)
            == Success(st.(usage := st.usagePage * 0x1_0000 + ReadData(ItemSize(data[o]), data, o + 1)))
  {
    var value := ReadData(ItemSize(data[o]), data, o + 1);
    Pow2Values();
    ShlSmall(st.usagePage, 16);
    OrOfDisjoint(st.usagePage, value, 16);
  }

  /** A vendor-defined usage page (0x8000 and up) makes `usagePage << 16` overflow: the usage comes out negative. */
  lemma VendorPageUsageNegative(page: nat, value: nat)
    requires 0x8000 <= page < 0x1_0000 && value < 0x1_0000
    ensures BitOr(Shl(page, 16), value) < 0
  {
    Pow2Values();
    var x := page * 0x1_0000;
    assert Shl(page, 16) == x - Two32;
    assert ToUint32(x - Two32) == x;
    assert ToUint32(value) == value;
    assert NatOr(x, value) == x + value by {
      ShiftedIsProduct(page, 16);
      PlaceBits(page, value, 16);
    }
  }

  lemma {:induction false} TotalSizeConcat(a: seq<Field>, b: seq<Field>)
    ensures TotalSize(a + b) == TotalSize(a) + TotalSize(b)
    decreases |b|
  {
    if b == [] {
      assert a + b == a;
    } else {
      var front := b[..|b| - 1];
      assert (a + b)[..|a + b| - 1] == a + front;
      TotalSizeConcat(a, front);
    }
  }

  /** One input of sixteen-bit values, three of them: six bytes. */
  lemma TotalSizeExample(f: Field)
    requires f.reportSize == 16 && f.reportCount == 3
    ensures TotalSize([f]) == 6.0
  {
    assert [f][..0] == [];
  }

  /**
   * The bytes A1 01 85 01 75 10 95 03 81 02 C0, element by element (a
   * sequence display here would have every function of `data` unfolded).
   */
  predicate ExampleBytes(data: seq<byte>) {
    && |data| == 11
    && data[0] == 0xA1 && data[1] == 0x01 && data[2] == 0x85 && data[3] == 0x01
    && data[4] == 0x75 && data[5] == 0x10 && data[6] == 0x95 && data[7] == 0x03
    && data[8] == 0x81 && data[9] == 0x02 && data[10] == 0xC0
  }

  lemma ExampleCollection(data: seq<byte>, st: ParserState) returns (after: ParserState)
    requires ExampleBytes(data)
    requires st == Initial()
    ensures Valid(after) && Step(data, 0, st) == Success(after)
    ensures after == st.(collections := [Collection(map[Application := 1], None), Collection(map[], Some([]))],
                         stack := [0, 1], current := Some(1))
  {
    assert ItemType(data[0]) == 0 && ItemTag(data[0]) == 0xA && KindOf(data[1]) == Application;
    after := Step(data, 0, st).value;
    assert after.collections[0].children == map[Application := 1];
  }

  lemma ExampleReportId(data: seq<byte>, st: ParserState) returns (after: ParserState)
    requires ExampleBytes(data)
    requires st == Initial().(collections := [Collection(map[Application := 1], None), Collection(map[], Some([]))],
                              stack := [0, 1], current := Some(1))
    ensures Valid(after) && Step(data, 2, st) == Success(after)
    ensures after == st.(collections := [Collection(map[Application := 1], None), Collection(map[], Some([0]))],
                         reports := [Report(1, [], [], [])], currentReport := Some(0))
  {
    assert ItemType(data[2]) == 1 && ItemTag(data[2]) == 8 && ItemSize(data[2]) == 1;
    assert ReadData(1, data, 3) == 1;
    var node := st.collections[1];
    assert node.reports.value + [0] == [0];
    assert st.collections[1 := node.(reports := Some([0]))]
           == [Collection(map[Application := 1], None), Collection(map[], Some([0]))];
    assert st.reports + [Report(1, [], [], [])] == [Report(1, [], [], [])];
    after := Step(data, 2, st).value;
  }

  lemma ExampleInput(data: seq<byte>, st: ParserState) returns (after: ParserState)
    requires ExampleBytes(data)
    requires Valid(st) && st.currentReport == Some(0) && st.reports == [Report(1, [], [], [])]
    requires st.usage == 0 && st.logicalMin == 0 && st.logicalMax == 0 && st.reportSize == 16 && st.reportCount == 3
    ensures Valid(after) && Step(data, 8, st) == Success(after)
    ensures after == st.(reports := [Report(1, [Field(0, 0, 0, 16, 3)], [], [])])
  {
    assert ItemType(data[8]) == 0 && ItemTag(data[8]) == 8;
    var f := Field(0, 0, 0, 16, 3);
    assert FieldOf(st) == f;
    assert AddField(st.reports[0], Input, f) == Report(1, [f], [], []) by {
      assert [] + [f] == [f];
    }
    assert st.reports[0 := Report(1, [f], [], [])] == [Report(1, [f], [], [])];
    after := Step(data, 8, st).value;
  }

  lemma ExampleRegisters(data: seq<byte>, st: ParserState) returns (after: ParserState)
    requires ExampleBytes(data)
    requires Valid(st)
    ensures Valid(after) && after == st.(reportSize := 16, reportCount := 3)
    ensures RunFrom(data, 4, st) == RunFrom(data, 8, after)
  {
    var mid := st.(reportSize := 16);
    assert Step(data, 4, st) == Success(mid) by {
      assert ItemType(data[4]) == 1 && ItemTag(data[4]) == 7 && ItemSize(data[4]) == 1;
    }
    after := mid.(reportCount := 3);
    assert Step(data, 6, mid) == Success(after) by {
      assert ItemType(data[6]) == 1 && ItemTag(data[6]) == 9 && ItemSize(data[6]) == 1;
    }
    RunFromStep(data, 4, st, mid);
    RunFromStep(data, 6, mid, after);
  }

  lemma ExampleEnd(data: seq<byte>, st: ParserState)
    requires ExampleBytes(data)
    requires Valid(st) && st.stack == [0, 1]
    ensures RunFrom(data, 10, st) == Success(st.(stack := [0], current := Some(1)))
  {
    var after := st.(stack := [0], current := Some(1));
    assert st.stack[..1] == [0];
    assert Step(data, 10, st) == Success(after) by {
      assert ItemType(data[10]) == 0 && ItemTag(data[10]) == 0xC;
    }
    RunFromStep(data, 10, st, after);
    assert RunFrom(data, 11, after) == Success(after);
  }

  lemma ExampleDescriptor(data: seq<byte>, st: ParserState)
    requires RunFrom(data, 0, Initial()) == Success(st) && st.stack == [0]
    requires st.reports == [Report(1, [Field(0, 0, 0, 16, 3)], [], [])]
    requires st.collections == [Collection(map[Application := 1], None), Collection(map[], Some([0]))]
    ensures ReportDescriptorOf(data).Success?
    ensures var d := ReportDescriptorOf(data).value;
      && d.reports == [Report(1, [Field(0, 0, 0, 16, 3)], [], [])]
      && d.totalSizes == [6.0]
      && d.collections == [Collection(map[Application := 1], None), Collection(map[], Some([0]))]
  {
    DescriptorOfRun(data, st);
    var f := Field(0, 0, 0, 16, 3);
    TotalSizeExample(f);
    assert TotalSizes(st.reports)[0] == 6.0;
  }

  /**
   * Collection(Application), Report ID 1, Report Size 16, Report Count 3,
   * Input, End Collection: one report whose one input occupies six bytes,
   * listed under the application collection.
   */
  lemma OneReportExample(data: seq<byte>)
    requires ExampleBytes(data)
    ensures ReportDescriptorOf(data).Success?
    ensures var d := ReportDescriptorOf(data).value;
      && d.reports == [Report(1, [Field(0, 0, 0, 16, 3)], [], [])]
      && d.totalSizes == [6.0]
      && d.collections == [Collection(map[Application := 1], None), Collection(map[], Some([0]))]
  {
    var st0 := Initial();
    var st1 := ExampleCollection(data, st0);
    RunFromStep(data, 0, st0, st1);
    var st2 := ExampleReportId(data, st1);
    RunFromStep(data, 2, st1, st2);
    var st4 := ExampleRegisters(data, st2);
    var st5 := ExampleInput(data, st4);
    RunFromStep(data, 8, st4, st5);
    ExampleEnd(data, st5);
    ExampleDescriptor(data, st5.(stack := [0], current := Some(1)));
  }
}
