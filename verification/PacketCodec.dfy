/** The `lepusa-ops-v3` wire format: the MoonBit encoder, the meaning of the C decoder as functions
    over the packet bytes, and the laws that connect the two. */
module PacketCodec {
  import opened Results
  import opened Bytes
  import Decimal
  import opened Words

  /** One native operation: fourteen byte fields in wire order. */
  datatype Record = Record(
    kind: bytes, window: bytes, action: bytes, url: bytes, title: bytes,
    width: bytes, height: bytes, x: bytes, y: bytes, fullscreen: bytes,
    resizable: bytes, bridgeSource: bytes, nativeHook: bytes, assetProtocol: bytes)
  {
    function Wire(): (fields: seq<bytes>)
      ensures |fields| == FIELD_COUNT
    {
      [kind, window, action, url, title, width, height, x, y, fullscreen,
       resizable, bridgeSource, nativeHook, assetProtocol]
    }
  }

  const FIELD_COUNT: nat := 14

  function FromWire(f: seq<bytes>): (r: Record)
    requires |f| == FIELD_COUNT
    ensures r.Wire() == f
  {
    Record(f[0], f[1], f[2], f[3], f[4], f[5], f[6], f[7], f[8], f[9], f[10], f[11], f[12], f[13])
  }

  // ----- the encoder -----

  function EncodeField(value: bytes): (text: bytes)
    ensures |value| < |text|
  {
    LengthLine(|value|) + value
  }

  function EncodeFields(values: seq<bytes>): bytes {
    if values == [] then [] else EncodeField(values[0]) + EncodeFields(values[1..])
  }

  function EncodeRecords(records: seq<Record>): bytes {
    if records == [] then [] else EncodeFields(records[0].Wire()) + EncodeRecords(records[1..])
  }

  function EncodeOperations(records: seq<Record>): bytes {
    OPS_VERSION + [NEWLINE] + (LengthLine(|records|) + EncodeRecords(records))
  }

  /** Status line, window line, length line, body and what follows the body. */
  function Layout(status: bytes, window: bytes, length: bytes, body: bytes, tail: bytes): bytes {
    status + [NEWLINE] + (window + [NEWLINE] + (length + (body + tail)))
  }

  function LengthLine(n: nat): bytes {
    Decimal.Print(n) + [NEWLINE]
  }

  function EncodeHandoff(status: bytes, window: bytes, body: bytes, records: seq<Record>): bytes {
    Layout(status, window, LengthLine(|body|), body, [NEWLINE] + EncodeOperations(records))
  }

  /** The packet that opens the further windows at start-up: no body and no newline after it. */
  function EncodeInitialOpen(records: seq<Record>): bytes {
    Layout(IMMEDIATE, [], LengthLine(0), [], EncodeOperations(records))
  }

  // ----- the decoder -----

  function FindNewline(p: bytes, from: nat): (r: Option<nat>)
    requires from <= |p|
    ensures r.Some? ==> from <= r.value < |p| && p[r.value] == NEWLINE
    ensures forall j :: from <= j < (if r.Some? then r.value else |p|) ==> p[j] != NEWLINE
    decreases |p| - from
  {
    if from == |p| then None
    else if p[from] == NEWLINE then Some(from)
    else FindNewline(p, from + 1)
  }

  datatype LineRead = NoLine | Line(text: bytes, next: nat)

  /** The text up to the next newline. */
  function ReadLine(p: bytes, cursor: nat): (r: LineRead)
    requires cursor <= |p|
    ensures r.Line? ==> cursor + |r.text| + 1 == r.next <= |p|
  {
    match FindNewline(p, cursor)
    case None => NoLine
    case Some(lineEnd) => Line(p[cursor..lineEnd], lineEnd + 1)
  }

  datatype NumberRead = NoNumber | Number(n: nat, next: nat)

  /** A line of decimal digits. */
  function ReadNumber(p: bytes, cursor: nat): (r: NumberRead)
    requires cursor <= |p|
    ensures r.Number? ==> cursor < r.next <= |p| && r.n <= INT32_MAX
  {
    match ReadLine(p, cursor)
    case NoLine => NoNumber
    case Line(text, next) =>
      match Decimal.ParseLength(text)
      case None => NoNumber
      case Some(n) => Number(n, next)
  }

  datatype FieldRead = NoField | Field(value: bytes, next: nat)

  function ReadField(p: bytes, cursor: nat): (r: FieldRead)
    requires cursor <= |p|
    ensures r.Field? ==> cursor + |r.value| < r.next <= |p| && |r.value| <= INT32_MAX
  {
    match ReadNumber(p, cursor)
    case NoNumber => NoField
    case Number(length, value) =>
      if value + length > |p| then NoField else Field(p[value..value + length], value + length)
  }

  datatype FieldsRead = Short | Fields(values: seq<bytes>, next: nat)

  function ReadFields(p: bytes, cursor: nat, n: nat): (r: FieldsRead)
    requires cursor <= |p|
    ensures r.Fields? ==> |r.values| == n && cursor + n <= r.next <= |p|
    decreases |p| - cursor
  {
    if n == 0 then Fields([], cursor)
    else
      match ReadField(p, cursor)
      case NoField => Short
      case Field(value, next) =>
        match ReadFields(p, next, n - 1)
        case Short => Short
        case Fields(values, end) => Fields([value] + values, end)
  }

  datatype RecordRead = NoRecord | OneRecord(record: Record, next: nat)

  function ReadRecord(p: bytes, cursor: nat): (r: RecordRead)
    requires cursor <= |p|
    ensures r.OneRecord? ==> cursor < r.next <= |p|
  {
    match ReadFields(p, cursor, FIELD_COUNT)
    case Short => NoRecord
    case Fields(values, next) => OneRecord(FromWire(values), next)
  }

  /** The records a pass visits: it reads `count` records and gives up at the first one that fails. */
  datatype Decoded = Decoded(records: seq<Record>, next: nat, complete: bool)

  function ReadRecords(p: bytes, cursor: nat, count: nat): (r: Decoded)
    requires cursor <= |p|
    ensures cursor <= r.next <= |p| && |r.records| <= count
    ensures r.complete <==> |r.records| == count
    decreases count
  {
    if count == 0 then Decoded([], cursor, true)
    else
      match ReadRecord(p, cursor)
      case NoRecord => Decoded([], cursor, false)
      case OneRecord(record, next) =>
        var rest := ReadRecords(p, next, count - 1);
        Decoded([record] + rest.records, rest.next, rest.complete)
  }

  /** The header of a handoff packet; `body` and `operations` are positions. */
  datatype Handoff = NoHandoff | Handoff(window: bytes, body: nat, operations: nat)

  function HandoffSections(p: bytes, accepted: set<bytes>): (r: Handoff)
    ensures r.Handoff? ==> r.body <= r.operations <= |p|
  {
    match ReadLine(p, 0)
    case NoLine => NoHandoff
    case Line(status, second) =>
      if status !in accepted then NoHandoff
      else
        match ReadLine(p, second)
        case NoLine => NoHandoff
        case Line(window, third) =>
          match ReadNumber(p, third)
          case NoNumber => NoHandoff
          case Number(length, body) =>
            if body + length > |p| then NoHandoff
            else Handoff(window, body, SkipNewline(p, body + length))
  }

  function SkipNewline(p: bytes, i: nat): (r: nat)
    requires i <= |p|
    ensures i <= r <= |p|
  {
    if i < |p| && p[i] == NEWLINE then i + 1 else i
  }

  datatype Batch = NoBatch | Batch(count: nat, cursor: nat)

  /** The version line and the record count of an operations section that starts at `start`. */
  function BatchAt(p: bytes, start: nat): (r: Batch)
    requires start <= |p|
    ensures r.Batch? ==> start < r.cursor <= |p|
  {
    match ReadLine(p, start)
    case NoLine => NoBatch
    case Line(version, next) =>
      if version != OPS_VERSION then NoBatch
      else
        match ReadNumber(p, next)
        case NoNumber => NoBatch
        case Number(count, cursor) => Batch(count, cursor)
  }

  function BatchOf(p: bytes, accepted: set<bytes>): (r: Batch)
    ensures r.Batch? ==> r.cursor <= |p|
  {
    match HandoffSections(p, accepted)
    case NoHandoff => NoBatch
    case Handoff(_, _, operations) => BatchAt(p, operations)
  }

  /** Every record that one pass over the packet visits, in packet order. */
  function Visited(p: bytes, accepted: set<bytes>): seq<Record> {
    match BatchOf(p, accepted)
    case NoBatch => []
    case Batch(count, cursor) => ReadRecords(p, cursor, count).records
  }

  const LINUX_STATUSES: set<bytes> := {IMMEDIATE}
  const WINDOWS_STATUSES: set<bytes> := {IMMEDIATE, DEFERRED}

  // ----- one field: the reader accepts exactly the field texts -----

  /** A length in decimal, a newline, and that many bytes. */
  ghost predicate IsFieldText(text: bytes, value: bytes) {
    exists k: nat ::
      && k < |text|
      && Decimal.AllDigits(text[..k])
      && text[k] == NEWLINE
      && Decimal.Value(text[..k]) == |value| <= INT32_MAX
      && text[k + 1..] == value
  }

  lemma NewlineFrom(p: bytes, cursor: nat, at: nat)
    requires cursor <= at < |p| && p[at] == NEWLINE
    requires forall j :: cursor <= j < at ==> p[j] != NEWLINE
    ensures ReadLine(p, cursor) == Line(p[cursor..at], at + 1)
  {}

  lemma ReadFieldSound(p: bytes, cursor: nat)
    requires cursor <= |p| && ReadField(p, cursor).Field?
    ensures IsFieldText(p[cursor..ReadField(p, cursor).next], ReadField(p, cursor).value)
  {
    hide FindNewline, Decimal.ParseLength, Decimal.Value;
    var Field(value, next) := ReadField(p, cursor);
    var digits := ReadLine(p, cursor).text;
    var text := p[cursor..next];
    Decimal.ParseLengthExact(digits);
    assert digits == p[cursor..cursor + |digits|] && value == p[cursor + |digits| + 1..next];
    Subrange(p, cursor, next, |digits|);
    Subrange(p, cursor, next, |digits| + 1);
    assert text[|digits|] == NEWLINE;
  }

  lemma Subrange(p: bytes, a: nat, b: nat, n: nat)
    requires a + n <= b <= |p|
    ensures p[a..b][..n] == p[a..a + n] && p[a..b][n..] == p[a + n..b]
  {}

  lemma ReadFieldComplete(p: bytes, cursor: nat, k: nat, value: bytes)
    requires cursor + k < |p| && p[cursor + k] == NEWLINE
    requires var digits := p[cursor..cursor + k];
             Decimal.AllDigits(digits) && Decimal.Value(digits) == |value| <= INT32_MAX
    requires At(p, cursor + k + 1, value)
    ensures ReadField(p, cursor) == Field(value, cursor + k + 1 + |value|)
  {
    hide FindNewline, Decimal.ParseLength, Decimal.Value;
    var digits := p[cursor..cursor + k];
    forall j | cursor <= j < cursor + k ensures p[j] != NEWLINE {
      assert Decimal.IsDigit(digits[j - cursor]);
    }
    NewlineFrom(p, cursor, cursor + k);
    Decimal.ParseLengthExact(digits);
    AtSlice(p, cursor + k + 1, value);
  }

  /** Both directions: what a successful read returns is a field text, and every field text is read. */
  lemma ReadFieldExact(p: bytes, cursor: nat, value: bytes, next: nat)
    requires cursor <= |p|
    ensures ReadField(p, cursor) == Field(value, next) <==>
            cursor <= next <= |p| && IsFieldText(p[cursor..next], value)
  {
    hide ReadField, Decimal.Value;
    if ReadField(p, cursor) == Field(value, next) {
      ReadFieldSound(p, cursor);
    }
    if cursor <= next <= |p| && IsFieldText(p[cursor..next], value) {
      var text := p[cursor..next];
      var k: nat :| k < |text| && Decimal.AllDigits(text[..k]) && text[k] == NEWLINE &&
        Decimal.Value(text[..k]) == |value| <= INT32_MAX && text[k + 1..] == value;
      assert text[..k] == p[cursor..cursor + k];
      assert text[k + 1..] == p[cursor + k + 1..cursor + k + 1 + |value|];
      AtSlice(p, cursor + k + 1, value);
      ReadFieldComplete(p, cursor, k, value);
    }
  }

  // ----- round trip -----

  lemma ReadsLine(p: bytes, cursor: nat, line: bytes)
    requires At(p, cursor, line + [NEWLINE]) && NEWLINE !in line
    ensures ReadLine(p, cursor) == Line(line, cursor + |line| + 1)
  {
    AtSplit(p, cursor, line, [NEWLINE]);
    forall j | cursor <= j < cursor + |line| ensures p[j] != NEWLINE {
      assert p[cursor + (j - cursor)] == line[j - cursor];
    }
    assert p[cursor + |line| + 0] == [NEWLINE][0];
    AtSlice(p, cursor, line);
    NewlineFrom(p, cursor, cursor + |line|);
  }

  lemma ReadsNumber(p: bytes, cursor: nat, n: nat)
    requires At(p, cursor, LengthLine(n)) && n <= INT32_MAX
    ensures ReadNumber(p, cursor) == Number(n, cursor + |LengthLine(n)|)
  {
    ReadsLine(p, cursor, Decimal.Print(n));
    Decimal.ParsePrinted(n);
  }

  lemma ReadsField(p: bytes, cursor: nat, value: bytes)
    requires At(p, cursor, EncodeField(value)) && |value| <= INT32_MAX
    ensures ReadField(p, cursor) == Field(value, cursor + |EncodeField(value)|)
  {
    AtSplit(p, cursor, LengthLine(|value|), value);
    AtSlice(p, cursor + |LengthLine(|value|)|, value);
    ReadsNumber(p, cursor, |value|);
  }

  lemma {:induction false} ReadsFields(p: bytes, cursor: nat, values: seq<bytes>)
    requires At(p, cursor, EncodeFields(values)) && |p| <= INT32_MAX
    ensures ReadFields(p, cursor, |values|) == Fields(values, cursor + |EncodeFields(values)|)
    decreases |values|
  {
    hide ReadField, EncodeField;
    if values != [] {
      var head, tail := values[0], values[1..];
      AtSplit(p, cursor, EncodeField(head), EncodeFields(tail));
      ReadsField(p, cursor, head);
      ReadsFields(p, cursor + |EncodeField(head)|, tail);
    }
  }

  lemma ReadsRecord(p: bytes, cursor: nat, record: Record)
    requires At(p, cursor, EncodeFields(record.Wire())) && |p| <= INT32_MAX
    ensures ReadRecord(p, cursor) == OneRecord(record, cursor + |EncodeFields(record.Wire())|)
  {
    ReadsFields(p, cursor, record.Wire());
    assert FromWire(record.Wire()) == record;
  }

  /** The fourteen fields of a record in the order in which they stand in a packet. */
  lemma WireOrder(p: bytes, cursor: nat, f: seq<bytes>)
    requires |f| == 14 && At(p, cursor, EncodeFields(f)) && |p| <= INT32_MAX
    ensures var r := ReadRecord(p, cursor);
            && r.OneRecord? && r.next == cursor + |EncodeFields(f)|
            && r.record.kind == f[0] && r.record.window == f[1] && r.record.action == f[2] && r.record.url == f[3]
            && r.record.title == f[4] && r.record.width == f[5] && r.record.height == f[6]
            && r.record.x == f[7] && r.record.y == f[8] && r.record.fullscreen == f[9]
            && r.record.resizable == f[10] && r.record.bridgeSource == f[11] && r.record.nativeHook == f[12]
            && r.record.assetProtocol == f[13] && r.record.Wire() == f
  {
    hide At, EncodeFields, ReadFields;
    ReadsFields(p, cursor, f);
  }

  /** A packet without records as it looks, line by line. */
  lemma PacketExample()
    ensures EncodeHandoff(Ascii("immediate"), Ascii("main"), Ascii("hi"), []) ==
            Ascii("immediate\n") + (Ascii("main\n") + (Ascii("2\n") + (Ascii("hi") + (Ascii("\n") +
            (Ascii("lepusa-ops-v3\n") + (Ascii("0\n") + []))))))
  {
    hide Ascii;
    PacketWords();
    LineAsText("immediate");
    LineAsText("main");
    LineAsText("lepusa-ops-v3");
    Digits();
    assert "immediate" + "\n" == "immediate\n" && "main" + "\n" == "main\n";
    assert "lepusa-ops-v3" + "\n" == "lepusa-ops-v3\n";
    var lines := Ascii("2\n") + (Ascii("hi") + (Ascii("\n") + (Ascii("lepusa-ops-v3\n") + (Ascii("0\n") + []))));
    var rest := [NEWLINE] + (OPS_VERSION + [NEWLINE] + (LengthLine(0) + []));
    assert rest == Ascii("\n") + (Ascii("lepusa-ops-v3\n") + (Ascii("0\n") + []));
    assert Ascii("immediate") + [NEWLINE] + (Ascii("main") + [NEWLINE] + lines) ==
           Ascii("immediate") + [NEWLINE] + (Ascii("main") + ([NEWLINE] + lines));
    assert Ascii("immediate\n") + (Ascii("main\n") + lines) ==
           Ascii("immediate") + [NEWLINE] + (Ascii("main") + ([NEWLINE] + lines));
  }

  lemma LineAsText(s: string)
    ensures Ascii(s + "\n") == Ascii(s) + [NEWLINE]
  {}

  lemma Digits()
    ensures LengthLine(0) == Ascii("0\n") && LengthLine(2) == Ascii("2\n") && [NEWLINE] == Ascii("\n")
    ensures LengthLine(907) == Ascii("907\n") && |Ascii("hi")| == 2 && INT32_MAX == 2147483647
  {}

  lemma {:induction false} ReadsRecords(p: bytes, cursor: nat, records: seq<Record>)
    requires At(p, cursor, EncodeRecords(records)) && |p| <= INT32_MAX
    ensures ReadRecords(p, cursor, |records|) ==
            Decoded(records, cursor + |EncodeRecords(records)|, true)
    decreases |records|
  {
    hide ReadRecord, EncodeFields, Record.Wire, At;
    if records != [] {
      var head := EncodeFields(records[0].Wire());
      AtSplit(p, cursor, head, EncodeRecords(records[1..]));
      ReadsRecord(p, cursor, records[0]);
      ReadsRecords(p, cursor + |head|, records[1..]);
    }
  }

  lemma {:induction false} CountFits(records: seq<Record>)
    ensures |records| <= |EncodeRecords(records)|
  {
    if records != [] {
      CountFits(records[1..]);
      assert EncodeFields(records[0].Wire()) ==
             EncodeField(records[0].Wire()[0]) + EncodeFields(records[0].Wire()[1..]);
    }
  }

  lemma ReadsOperations(p: bytes, start: nat, records: seq<Record>)
    requires At(p, start, EncodeOperations(records)) && |p| <= INT32_MAX
    requires start + |EncodeOperations(records)| == |p|
    ensures BatchAt(p, start) == Batch(|records|, |p| - |EncodeRecords(records)|)
    ensures ReadRecords(p, |p| - |EncodeRecords(records)|, |records|) == Decoded(records, |p|, true)
  {
    hide ReadRecords, EncodeRecords, ReadLine, ReadNumber, LengthLine, At;
    var count := LengthLine(|records|);
    AtSplit(p, start, OPS_VERSION + [NEWLINE], count + EncodeRecords(records));
    ReadsLine(p, start, OPS_VERSION);
    var second := start + |OPS_VERSION| + 1;
    AtSplit(p, second, count, EncodeRecords(records));
    CountFits(records);
    ReadsNumber(p, second, |records|);
    ReadsRecords(p, second + |count|, records);
  }

  /** Where the parts of a packet laid out as status, window, body length, body and rest stand. */
  lemma HeaderLayout(p: bytes, status: bytes, window: bytes, length: bytes, body: bytes, tail: bytes)
    requires p == Layout(status, window, length, body, tail)
    ensures |p| == |status| + |window| + 2 + |length| + |body| + |tail|
    ensures At(p, 0, status + [NEWLINE]) && At(p, |status| + 1, window + [NEWLINE])
    ensures At(p, |status| + |window| + 2, length)
    ensures At(p, |p| - |tail| - |body|, body) && At(p, |p| - |tail|, tail)
  {
    AtSlice(p, 0, p);
    AtSplit(p, 0, status + [NEWLINE], window + [NEWLINE] + (length + (body + tail)));
    AtSplit(p, |status| + 1, window + [NEWLINE], length + (body + tail));
    AtSplit(p, |status| + |window| + 2, length, body + tail);
    AtSplit(p, |status| + |window| + 2 + |length|, body, tail);
  }

  lemma SectionsFromLayout(p: bytes, accepted: set<bytes>, status: bytes, window: bytes, bodyLength: nat)
    requires status in accepted && NEWLINE !in status && NEWLINE !in window
    requires At(p, 0, status + [NEWLINE]) && At(p, |status| + 1, window + [NEWLINE])
    requires At(p, |status| + |window| + 2, LengthLine(bodyLength))
    requires |status| + |window| + 2 + |LengthLine(bodyLength)| + bodyLength <= |p| <= INT32_MAX
    ensures ReadLine(p, 0) == Line(status, |status| + 1)
    ensures var body := |status| + |window| + 2 + |LengthLine(bodyLength)|;
            HandoffSections(p, accepted) == Handoff(window, body, SkipNewline(p, body + bodyLength))
  {
    hide ReadLine, ReadNumber, LengthLine, SkipNewline, At;
    ReadsLine(p, 0, status);
    ReadsLine(p, |status| + 1, window);
    ReadsNumber(p, |status| + |window| + 2, bodyLength);
  }

  lemma ReadsHeader(p: bytes, accepted: set<bytes>, status: bytes, window: bytes, body: bytes, tail: bytes)
    requires p == Layout(status, window, LengthLine(|body|), body, tail)
    requires status in accepted && NEWLINE !in status && NEWLINE !in window && |p| <= INT32_MAX
    ensures |p| >= |body| + |tail| && At(p, |p| - |tail|, tail) && At(p, |p| - |tail| - |body|, body)
    ensures HandoffSections(p, accepted) ==
            Handoff(window, |p| - |tail| - |body|, SkipNewline(p, |p| - |tail|))
    ensures ReadLine(p, 0) == Line(status, |status| + 1)
  {
    hide ReadLine, HandoffSections, LengthLine, SkipNewline, At, Layout;
    HeaderLayout(p, status, window, LengthLine(|body|), body, tail);
    SectionsFromLayout(p, accepted, status, window, |body|);
  }

  /** Every encoded handoff is decoded to its own window, body and records, all bytes consumed. */
  lemma HandoffRoundTrip(accepted: set<bytes>, status: bytes, window: bytes, body: bytes, records: seq<Record>)
    requires status in accepted && NEWLINE !in status && NEWLINE !in window
    requires |EncodeHandoff(status, window, body, records)| <= INT32_MAX
    ensures var p := EncodeHandoff(status, window, body, records);
            var sections := HandoffSections(p, accepted);
            var batch := BatchOf(p, accepted);
            && ReadLine(p, 0) == Line(status, |status| + 1)
            && sections.Handoff? && sections.window == window
            && p[sections.body..sections.operations] == body + [NEWLINE]
            && batch.Batch? && batch.count == |records|
            && ReadRecords(p, batch.cursor, batch.count) == Decoded(records, |p|, true)
            && Visited(p, accepted) == records
  {
    hide HandoffSections, ReadLine, BatchAt, ReadRecords, EncodeOperations, LengthLine, Layout;
    var p := EncodeHandoff(status, window, body, records);
    var operations := EncodeOperations(records);
    var tail := [NEWLINE] + operations;
    ReadsHeader(p, accepted, status, window, body, tail);
    AtSplit(p, |p| - |tail|, [NEWLINE], operations);
    assert p[|p| - |tail| + 0] == [NEWLINE][0];
    AtJoin(p, |p| - |tail| - |body|, body, [NEWLINE]);
    AtSlice(p, |p| - |tail| - |body|, body + [NEWLINE]);
    ReadsOperations(p, |p| - |operations|, records);
  }

  /** A window line cannot hold a newline: the window and the records come back exactly when the
      window given to the encoder has none. */
  lemma HandoffRoundTripExact(accepted: set<bytes>, status: bytes, window: bytes, body: bytes, records: seq<Record>)
    requires status in accepted && NEWLINE !in status
    requires |EncodeHandoff(status, window, body, records)| <= INT32_MAX
    ensures var p := EncodeHandoff(status, window, body, records);
            var sections := HandoffSections(p, accepted);
            NEWLINE !in window <==>
            sections.Handoff? && sections.window == window && Visited(p, accepted) == records
  {
    hide EncodeHandoff, Visited, ReadNumber;
    if NEWLINE !in window {
      HandoffRoundTrip(accepted, status, window, body, records);
    } else {
      var p := EncodeHandoff(status, window, body, records);
      if HandoffSections(p, accepted).Handoff? {
        LineHoldsNoNewline(p, ReadLine(p, 0).next);
      }
    }
  }

  lemma LineHoldsNoNewline(p: bytes, cursor: nat)
    requires cursor <= |p| && ReadLine(p, cursor).Line?
    ensures NEWLINE !in ReadLine(p, cursor).text
  {
    var text := ReadLine(p, cursor).text;
    forall j | 0 <= j < |text| ensures text[j] != NEWLINE {
      assert text[j] == p[cursor + j];
    }
  }

  // ----- every packet that is accepted -----

  lemma LineStands(p: bytes, cursor: nat)
    requires cursor <= |p| && ReadLine(p, cursor).Line?
    ensures var read := ReadLine(p, cursor);
            p[cursor..] == read.text + [NEWLINE] + p[read.next..]
  {
    var at := FindNewline(p, cursor).value;
    assert p[cursor..] == p[cursor..at] + [p[at]] + p[at + 1..];
  }

  /** A line of digits, small enough. */
  ghost predicate IsLength(digits: bytes, n: nat) {
    Decimal.AllDigits(digits) && Decimal.Value(digits) == n <= INT32_MAX
  }

  lemma NumberExact(p: bytes, cursor: nat, n: nat, next: nat)
    requires cursor <= |p|
    ensures ReadNumber(p, cursor) == Number(n, next) <==>
            cursor < next <= |p| && p[next - 1] == NEWLINE && IsLength(p[cursor..next - 1], n)
  {
    hide Decimal.Value, FindNewline, Decimal.ParseLength;
    if ReadLine(p, cursor).Line? {
      Decimal.ParseLengthExact(ReadLine(p, cursor).text);
      assert p[ReadLine(p, cursor).next - 1] == NEWLINE;
    }
    if cursor < next <= |p| && p[next - 1] == NEWLINE && IsLength(p[cursor..next - 1], n) {
      assert forall j :: cursor <= j < next - 1 ==> p[cursor..next - 1][j - cursor] == p[j];
      NewlineFrom(p, cursor, next - 1);
      Decimal.ParseLengthExact(p[cursor..next - 1]);
    }
  }

  /** A header: an accepted status, a line for the window, a line with the length of the body, the body. */
  ghost predicate HandoffParts(p: bytes, accepted: set<bytes>, status: bytes, window: bytes, digits: bytes, body: bytes,
                               rest: bytes)
  {
    && p == Layout(status, window, digits + [NEWLINE], body, rest) && status in accepted
    && NEWLINE !in status && NEWLINE !in window && IsLength(digits, |body|)
  }

  /** A packet, whatever its bytes, is accepted exactly when it consists of these parts; the operations start
      behind the body and one newline, if there is one. */
  lemma HandoffExact(p: bytes, accepted: set<bytes>, sections: Handoff)
    requires sections.Handoff?
    ensures HandoffSections(p, accepted) == sections <==>
            exists status, digits, body, rest ::
              && HandoffParts(p, accepted, status, sections.window, digits, body, rest)
              && sections.body == |p| - |rest| - |body|
              && sections.operations == |p| - |rest| + (if rest != [] && rest[0] == NEWLINE then 1 else 0)
  {
    hide HandoffSections, HandoffParts;
    if HandoffSections(p, accepted) == sections {
      HandoffFound(p, accepted);
    }
    if status, digits, body, rest :|
      && HandoffParts(p, accepted, status, sections.window, digits, body, rest)
      && sections.body == |p| - |rest| - |body|
      && sections.operations == |p| - |rest| + (if rest != [] && rest[0] == NEWLINE then 1 else 0)
    {
      HandoffRead(p, accepted, status, sections.window, digits, body, rest);
    }
  }

  lemma HandoffFound(p: bytes, accepted: set<bytes>)
    requires HandoffSections(p, accepted).Handoff?
    ensures var sections := HandoffSections(p, accepted);
            exists status, digits, body, rest ::
              && HandoffParts(p, accepted, status, sections.window, digits, body, rest)
              && sections.body == |p| - |rest| - |body|
              && sections.operations == |p| - |rest| + (if rest != [] && rest[0] == NEWLINE then 1 else 0)
  {
    hide ReadLine, ReadNumber, IsLength, Layout;
    var second := ReadLine(p, 0).next;
    var third := ReadLine(p, second).next;
    var number := ReadNumber(p, third);
    NumberExact(p, third, number.n, number.next);
    LineHoldsNoNewline(p, 0);
    LineHoldsNoNewline(p, second);
    LineStands(p, 0);
    LineStands(p, second);
    var digits := NumberStands(p, third);
    var status, window := ReadLine(p, 0).text, ReadLine(p, second).text;
    var body, rest := p[number.next..number.next + number.n], p[number.next + number.n..];
    assert p[number.next..] == body + rest;
    assert p == p[0..];
    Joined(p, p[second..], p[third..], p[number.next..], status, window, digits, body, rest);
    assert HandoffParts(p, accepted, status, window, digits, body, rest);
  }

  lemma NumberStands(p: bytes, cursor: nat) returns (digits: bytes)
    requires cursor <= |p| && ReadNumber(p, cursor).Number?
    ensures var read := ReadNumber(p, cursor);
            p[cursor..] == digits + [NEWLINE] + p[read.next..] && IsLength(digits, read.n)
    ensures |digits| == ReadNumber(p, cursor).next - cursor - 1
  {
    hide ReadNumber, IsLength;
    var read := ReadNumber(p, cursor);
    NumberExact(p, cursor, read.n, read.next);
    digits := p[cursor..read.next - 1];
    assert p[cursor..] == digits + [p[read.next - 1]] + p[read.next..];
  }

  lemma Joined(p: bytes, p2: bytes, p3: bytes, p4: bytes, status: bytes, window: bytes, digits: bytes, body: bytes,
               rest: bytes)
    requires p == status + [NEWLINE] + p2 && p2 == window + [NEWLINE] + p3 && p3 == digits + [NEWLINE] + p4
    requires p4 == body + rest
    ensures p == Layout(status, window, digits + [NEWLINE], body, rest)
  {}

  lemma DigitsBefore(p: bytes, i: nat, digits: bytes)
    requires At(p, i, digits + [NEWLINE])
    ensures i + |digits| < |p| && p[i..i + |digits|] == digits && p[i + |digits|] == NEWLINE
  {
    AtSplit(p, i, digits, [NEWLINE]);
    AtSlice(p, i, digits);
    assert p[i + |digits| + 0] == [NEWLINE][0];
  }

  lemma HandoffRead(p: bytes, accepted: set<bytes>, status: bytes, window: bytes, digits: bytes, body: bytes,
                    rest: bytes)
    requires HandoffParts(p, accepted, status, window, digits, body, rest)
    ensures HandoffSections(p, accepted) ==
            Handoff(window, |p| - |rest| - |body|,
                    |p| - |rest| + (if rest != [] && rest[0] == NEWLINE then 1 else 0))
  {
    hide At, Layout, ReadLine, ReadNumber, IsLength;
    HeaderLayout(p, status, window, digits + [NEWLINE], body, rest);
    ReadsLine(p, 0, status);
    ReadsLine(p, |status| + 1, window);
    var third := |status| + |window| + 2;
    var next := third + |digits| + 1;
    DigitsBefore(p, third, digits);
    NumberExact(p, third, |body|, next);
    AtSlice(p, |p| - |rest|, rest);
    assert p[|p| - |rest|..] == rest;
  }

  /** The version, and a line with the number of records. */
  ghost predicate BatchParts(p: bytes, start: nat, digits: bytes, count: nat, cursor: nat) {
    && IsLength(digits, count) && cursor == start + |Ascii("lepusa-ops-v3\n")| + |digits| + 1
    && At(p, start, Ascii("lepusa-ops-v3\n") + (digits + [NEWLINE]))
  }

  /** The operations section, whatever its bytes, is read exactly when it starts with these. */
  lemma BatchExact(p: bytes, start: nat, count: nat, cursor: nat)
    requires start <= |p|
    ensures BatchAt(p, start) == Batch(count, cursor) <==> exists digits :: BatchParts(p, start, digits, count, cursor)
  {
    hide BatchAt, BatchParts;
    if BatchAt(p, start) == Batch(count, cursor) {
      var digits := BatchFound(p, start);
    }
    if digits :| BatchParts(p, start, digits, count, cursor) {
      BatchRead(p, start, digits, count, cursor);
    }
  }

  lemma VersionLine()
    ensures Ascii("lepusa-ops-v3\n") == OPS_VERSION + [NEWLINE] && NEWLINE !in OPS_VERSION
  {
    hide Ascii;
    PacketWords();
    LineAsText("lepusa-ops-v3");
    assert "lepusa-ops-v3" + "\n" == "lepusa-ops-v3\n";
  }

  lemma BatchFound(p: bytes, start: nat) returns (digits: bytes)
    requires start <= |p| && BatchAt(p, start).Batch?
    ensures BatchParts(p, start, digits, BatchAt(p, start).count, BatchAt(p, start).cursor)
  {
    hide ReadLine, ReadNumber, IsLength, At, Ascii, OPS_VERSION;
    VersionLine();
    var next := ReadLine(p, start).next;
    var cursor := ReadNumber(p, next).next;
    LineStands(p, start);
    digits := NumberStands(p, next);
    var head := OPS_VERSION + [NEWLINE] + (digits + [NEWLINE]);
    assert p[start..] == head + p[cursor..];
    assert p[start..start + |head|] == p[start..][..|head|];
    AtSlice(p, start, head);
  }

  lemma BatchRead(p: bytes, start: nat, digits: bytes, count: nat, cursor: nat)
    requires start <= |p| && BatchParts(p, start, digits, count, cursor)
    ensures BatchAt(p, start) == Batch(count, cursor)
  {
    hide ReadLine, ReadNumber, IsLength, At, Ascii, OPS_VERSION;
    VersionLine();
    var version := OPS_VERSION + [NEWLINE];
    AtSplit(p, start, version, digits + [NEWLINE]);
    ReadsLine(p, start, OPS_VERSION);
    var next := start + |version|;
    DigitsBefore(p, next, digits);
    NumberExact(p, next, count, cursor);
  }

  /** The status line alone decides whether an encoded packet's records are carried out. So a deferred
      packet's are on Windows, and are not on Linux and macOS. */
  lemma StatusDecides(accepted: set<bytes>, status: bytes, window: bytes, body: bytes, records: seq<Record>)
    requires NEWLINE !in status && NEWLINE !in window
    requires |EncodeHandoff(status, window, body, records)| <= INT32_MAX
    ensures Visited(EncodeHandoff(status, window, body, records), accepted) ==
            if status in accepted then records else []
  {
    hide Visited, ReadLine, ReadNumber, SkipNewline, EncodeOperations, Layout, LengthLine;
    var p := EncodeHandoff(status, window, body, records);
    if status in accepted {
      HandoffRoundTrip(accepted, status, window, body, records);
    } else {
      ReadsHeader(p, {status}, status, window, body, [NEWLINE] + EncodeOperations(records));
      assert HandoffSections(p, accepted).NoHandoff?;
      NothingVisited(p, accepted);
    }
  }

  lemma NothingVisited(p: bytes, accepted: set<bytes>)
    requires HandoffSections(p, accepted).NoHandoff?
    ensures Visited(p, accepted) == []
  {
    hide HandoffSections;
  }

  lemma DeferredByPlatform(window: bytes, body: bytes, records: seq<Record>)
    requires NEWLINE !in window && |EncodeHandoff(DEFERRED, window, body, records)| <= INT32_MAX
    ensures Visited(EncodeHandoff(DEFERRED, window, body, records), WINDOWS_STATUSES) == records
    ensures Visited(EncodeHandoff(DEFERRED, window, body, records), LINUX_STATUSES) == []
  {
    hide Visited, EncodeHandoff;
    assert |DEFERRED| != |IMMEDIATE|;
    StatusDecides(WINDOWS_STATUSES, DEFERRED, window, body, records);
    StatusDecides(LINUX_STATUSES, DEFERRED, window, body, records);
  }

  /** The start-up packet has no newline after its empty body; the decoder takes it all the same. */
  lemma InitialOpenRoundTrip(accepted: set<bytes>, records: seq<Record>)
    requires IMMEDIATE in accepted && |EncodeInitialOpen(records)| <= INT32_MAX
    ensures Visited(EncodeInitialOpen(records), accepted) == records
  {
    hide HandoffSections, ReadLine, BatchAt, ReadRecords, LengthLine, EncodeRecords, Layout;
    var p := EncodeInitialOpen(records);
    var operations := EncodeOperations(records);
    ReadsHeader(p, accepted, IMMEDIATE, [], [], operations);
    assert p[|p| - |operations| + 0] == operations[0] == OPS_VERSION[0];
    ReadsOperations(p, |p| - |operations|, records);
  }

  /** Two handoffs with the same bytes carry the same status, window, body and records. */
  lemma HandoffInjective(status: bytes, window: bytes, body: bytes, records: seq<Record>,
                         status': bytes, window': bytes, body': bytes, records': seq<Record>)
    requires NEWLINE !in status && NEWLINE !in window && NEWLINE !in status' && NEWLINE !in window'
    requires EncodeHandoff(status, window, body, records) == EncodeHandoff(status', window', body', records')
    requires |EncodeHandoff(status, window, body, records)| <= INT32_MAX
    ensures status == status' && window == window' && body == body' && records == records'
  {
    HandoffRoundTrip({status, status'}, status, window, body, records);
    HandoffRoundTrip({status, status'}, status', window', body', records');
    assert (body + [NEWLINE])[..|body|] == body && (body' + [NEWLINE])[..|body'|] == body';
  }

  // ----- truncation -----

  lemma LineInPrefix(q: bytes, p: bytes, from: nat)
    requires q <= p && from <= |q| && ReadLine(q, from).Line?
    ensures ReadLine(p, from) == ReadLine(q, from)
  {
    var at := FindNewline(q, from).value;
    assert p[from..at] == q[from..at];
    NewlineFrom(p, from, at);
  }

  lemma FieldInPrefix(q: bytes, p: bytes, cursor: nat)
    requires q <= p && cursor <= |q| && ReadField(q, cursor).Field?
    ensures ReadField(p, cursor) == ReadField(q, cursor)
  {
    LineInPrefix(q, p, cursor);
    var value := ReadNumber(q, cursor).next;
    assert p[value..ReadField(q, cursor).next] == q[value..ReadField(q, cursor).next];
  }

  lemma {:induction false} FieldsInPrefix(q: bytes, p: bytes, cursor: nat, n: nat)
    requires q <= p && cursor <= |q| && ReadFields(q, cursor, n).Fields?
    ensures ReadFields(p, cursor, n) == ReadFields(q, cursor, n)
    decreases n
  {
    hide ReadField;
    if n > 0 {
      FieldInPrefix(q, p, cursor);
      FieldsInPrefix(q, p, ReadField(q, cursor).next, n - 1);
    }
  }

  lemma RecordInPrefix(q: bytes, p: bytes, cursor: nat)
    requires q <= p && cursor <= |q| && ReadRecord(q, cursor).OneRecord?
    ensures ReadRecord(p, cursor) == ReadRecord(q, cursor)
  {
    FieldsInPrefix(q, p, cursor, FIELD_COUNT);
  }

  lemma {:induction false} RecordsInPrefix(q: bytes, p: bytes, cursor: nat, count: nat)
    requires q <= p && cursor <= |q|
    ensures ReadRecords(q, cursor, count).records <= ReadRecords(p, cursor, count).records
    ensures ReadRecords(q, cursor, count).complete ==> ReadRecords(p, cursor, count) == ReadRecords(q, cursor, count)
    decreases count
  {
    hide ReadFields, FromWire, ReadRecord;
    if count > 0 && ReadRecord(q, cursor).OneRecord? {
      RecordInPrefix(q, p, cursor);
      RecordsInPrefix(q, p, ReadRecord(q, cursor).next, count - 1);
    }
  }

  lemma SectionsInPrefix(q: bytes, p: bytes, accepted: set<bytes>)
    requires q <= p && HandoffSections(q, accepted).Handoff? && HandoffSections(q, accepted).operations < |q|
    ensures HandoffSections(p, accepted) == HandoffSections(q, accepted)
  {
    LineInPrefix(q, p, 0);
    var second := ReadLine(q, 0).next;
    LineInPrefix(q, p, second);
    LineInPrefix(q, p, ReadLine(q, second).next);
  }

  lemma BatchInPrefix(q: bytes, p: bytes, accepted: set<bytes>)
    requires q <= p && BatchOf(q, accepted).Batch?
    ensures BatchOf(p, accepted) == BatchOf(q, accepted)
  {
    SectionsInPrefix(q, p, accepted);
    var start := HandoffSections(q, accepted).operations;
    LineInPrefix(q, p, start);
    LineInPrefix(q, p, ReadLine(q, start).next);
  }

  /** A truncated packet is never decoded to anything but a prefix of the whole packet's records. */
  lemma TruncationSafe(q: bytes, p: bytes, accepted: set<bytes>)
    requires q <= p
    ensures Visited(q, accepted) <= Visited(p, accepted)
  {
    if BatchOf(q, accepted).Batch? {
      BatchInPrefix(q, p, accepted);
      var batch := BatchOf(q, accepted);
      RecordsInPrefix(q, p, batch.cursor, batch.count);
    }
  }
}
