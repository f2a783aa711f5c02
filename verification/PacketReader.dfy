/** The cursor-moving readers of the native backends, proved against the functions of PacketCodec. */
module PacketReader {
  import opened Results
  import opened Bytes
  import opened Words
  import opened PacketCodec
  import Decimal

  method FindNewlineRange(p: bytes, start: nat) returns (r: Option<nat>)
    requires start <= |p|
    ensures r == FindNewline(p, start)
  {
    var cursor := start;
    while cursor < |p|
      invariant start <= cursor <= |p|
      invariant FindNewline(p, start) == FindNewline(p, cursor)
    {
      if p[cursor] == NEWLINE {
        return Some(cursor);
      }
      cursor := cursor + 1;
    }
    return None;
  }

  /** The digit loop that every length and count goes through; it leaves early above INT32_MAX. */
  method ReadDigits(p: bytes, start: nat, end: nat) returns (r: Option<nat>)
    requires start <= end <= |p|
    ensures r == Decimal.ParseLength(p[start..end])
  {
    var length: nat := 0;
    var i := start;
    while i < end
      invariant start <= i <= end && length <= INT32_MAX
      invariant Decimal.ParseLength(p[start..i]) == Some(length)
    {
      assert p[start..i + 1][..i - start] == p[start..i];
      if !Decimal.IsDigit(p[i]) {
        RefusedStaysRefused(p[start..i + 1], p[start..end]);
        return None;
      }
      length := length * 10 + (p[i] - Decimal.ZERO) as nat;
      i := i + 1;
      if length > INT32_MAX {
        RefusedStaysRefused(p[start..i], p[start..end]);
        return None;
      }
    }
    return Some(length);
  }

  lemma {:induction false} RefusedStaysRefused(prefix: bytes, ds: bytes)
    requires prefix <= ds && Decimal.ParseLength(prefix).None?
    ensures Decimal.ParseLength(ds).None?
    decreases |ds|
  {
    if prefix != ds {
      RefusedStaysRefused(prefix, ds[..|ds| - 1]);
    } else {
      assert ds == prefix;
    }
  }

  /** On success the cursor moves past the field; on failure it stays where it was. */
  method ReadPacketField(p: bytes, cursor: nat) returns (ok: bool, value: bytes, next: nat)
    requires cursor <= |p|
    ensures ok <==> ReadField(p, cursor).Field?
    ensures ok ==> ReadField(p, cursor) == Field(value, next) && cursor < next <= |p|
    ensures !ok ==> next == cursor
  {
    value, next := [], cursor;
    var lineEnd := FindNewlineRange(p, cursor);
    if lineEnd.None? {
      return false, value, next;
    }
    var length := ReadDigits(p, cursor, lineEnd.value);
    if length.None? {
      return false, value, next;
    }
    var start := lineEnd.value + 1;
    if start + length.value > |p| {
      return false, value, next;
    }
    return true, p[start..start + length.value], start + length.value;
  }

  /** `read` are the first fields of the record that starts at `start`, and `cursor` follows them. */
  ghost predicate Read(p: bytes, start: nat, read: seq<bytes>, cursor: nat)
    requires start <= |p| && cursor <= |p|
  {
    && |read| <= FIELD_COUNT
    && ReadFields(p, start, FIELD_COUNT) == AfterFields(read, ReadFields(p, cursor, FIELD_COUNT - |read|))
  }

  ghost function AfterFields(read: seq<bytes>, rest: FieldsRead): FieldsRead {
    match rest
    case Short => Short
    case Fields(values, next) => Fields(read + values, next)
  }

  /** One link of the chain of fourteen field reads. */
  method ReadNext(p: bytes, ghost start: nat, ghost read: seq<bytes>, cursor: nat)
    returns (ok: bool, value: bytes, next: nat)
    requires start <= |p| && cursor <= |p| && |read| < FIELD_COUNT && Read(p, start, read, cursor)
    ensures next <= |p|
    ensures ok ==> Read(p, start, read + [value], next)
    ensures !ok ==> ReadRecord(p, start).NoRecord?
  {
    hide Read, ReadFields;
    ok, value, next := ReadPacketField(p, cursor);
    OneMoreRead(p, start, read, cursor);
  }

  lemma OneMoreRead(p: bytes, start: nat, read: seq<bytes>, cursor: nat)
    requires start <= |p| && cursor <= |p| && |read| < FIELD_COUNT && Read(p, start, read, cursor)
    ensures match ReadField(p, cursor)
            case NoField => ReadFields(p, start, FIELD_COUNT).Short?
            case Field(value, next) => Read(p, start, read + [value], next)
  {
    hide ReadField;
    match ReadField(p, cursor)
    case NoField =>
    case Field(value, next) =>
      var rest := ReadFields(p, next, FIELD_COUNT - |read| - 1);
      if rest.Fields? {
        assert read + ([value] + rest.values) == read + [value] + rest.values;
      }
  }

  lemma NothingRead(p: bytes, start: nat)
    requires start <= |p|
    ensures Read(p, start, [], start)
  {
    var all := ReadFields(p, start, FIELD_COUNT);
    assert all.Fields? ==> [] + all.values == all.values;
  }

  lemma AllRead(p: bytes, start: nat, record: Record, next: nat)
    requires start <= |p| && next <= |p| && Read(p, start, record.Wire(), next)
    ensures ReadRecord(p, start) == OneRecord(record, next)
  {
    assert record.Wire() + [] == record.Wire();
    assert FromWire(record.Wire()) == record;
  }

  /** The first half of a record: what it is, and for which window. */
  method ReadWindowFields(p: bytes, cursor: nat)
    returns (ok: bool, kind: bytes, window: bytes, action: bytes, url: bytes, title: bytes, width: bytes,
             height: bytes, next: nat)
    requires cursor <= |p|
    ensures next <= |p|
    ensures ok ==> Read(p, cursor, [kind, window, action, url, title, width, height], next)
    ensures !ok ==> ReadRecord(p, cursor).NoRecord?
  {
    hide ReadFields, Read, ReadRecord;
    kind, window, action, url, title, width, height := [], [], [], [], [], [], [];
    next := cursor;
    NothingRead(p, cursor);
    ghost var read: seq<bytes> := [];
    ok, kind, next := ReadNext(p, cursor, read, next);
    if !ok { return; }
    read := read + [kind];
    ok, window, next := ReadNext(p, cursor, read, next);
    if !ok { return; }
    read := read + [window];
    ok, action, next := ReadNext(p, cursor, read, next);
    if !ok { return; }
    read := read + [action];
    ok, url, next := ReadNext(p, cursor, read, next);
    if !ok { return; }
    read := read + [url];
    ok, title, next := ReadNext(p, cursor, read, next);
    if !ok { return; }
    read := read + [title];
    ok, width, next := ReadNext(p, cursor, read, next);
    if !ok { return; }
    read := read + [width];
    ok, height, next := ReadNext(p, cursor, read, next);
    if !ok { return; }
    read := read + [height];
    assert read == [kind, window, action, url, title, width, height];
  }

  /** The second half, behind the first. */
  method ReadGeometryFields(p: bytes, ghost start: nat, ghost head: seq<bytes>, cursor: nat)
    returns (ok: bool, x: bytes, y: bytes, fullscreen: bytes, resizable: bytes, bridgeSource: bytes,
             nativeHook: bytes, assetProtocol: bytes, next: nat)
    requires start <= |p| && cursor <= |p| && |head| == 7 && Read(p, start, head, cursor)
    ensures next <= |p|
    ensures ok ==> Read(p, start, head + [x, y, fullscreen, resizable, bridgeSource, nativeHook, assetProtocol], next)
    ensures !ok ==> ReadRecord(p, start).NoRecord?
  {
    hide ReadFields, Read, ReadRecord;
    x, y, fullscreen, resizable, bridgeSource, nativeHook, assetProtocol := [], [], [], [], [], [], [];
    next := cursor;
    ghost var read := head;
    ok, x, next := ReadNext(p, start, read, next);
    if !ok { return; }
    read := read + [x];
    ok, y, next := ReadNext(p, start, read, next);
    if !ok { return; }
    read := read + [y];
    ok, fullscreen, next := ReadNext(p, start, read, next);
    if !ok { return; }
    read := read + [fullscreen];
    ok, resizable, next := ReadNext(p, start, read, next);
    if !ok { return; }
    read := read + [resizable];
    ok, bridgeSource, next := ReadNext(p, start, read, next);
    if !ok { return; }
    read := read + [bridgeSource];
    ok, nativeHook, next := ReadNext(p, start, read, next);
    if !ok { return; }
    read := read + [nativeHook];
    ok, assetProtocol, next := ReadNext(p, start, read, next);
    if !ok { return; }
    read := read + [assetProtocol];
    assert read == head + [x, y, fullscreen, resizable, bridgeSource, nativeHook, assetProtocol];
  }

  method ReadNativeOperationRecord(p: bytes, cursor: nat) returns (ok: bool, record: Record, next: nat)
    requires cursor <= |p|
    ensures ok <==> ReadRecord(p, cursor).OneRecord?
    ensures ok ==> ReadRecord(p, cursor) == OneRecord(record, next) && cursor < next <= |p|
  {
    hide ReadFields, Read, ReadRecord;
    record := Record([], [], [], [], [], [], [], [], [], [], [], [], [], []);
    var kind, window, action, url, title, width, height;
    ok, kind, window, action, url, title, width, height, next := ReadWindowFields(p, cursor);
    if !ok { return; }
    ghost var head := [kind, window, action, url, title, width, height];
    var x, y, fullscreen, resizable, bridgeSource, nativeHook, assetProtocol;
    ok, x, y, fullscreen, resizable, bridgeSource, nativeHook, assetProtocol, next :=
      ReadGeometryFields(p, cursor, head, next);
    if !ok { return; }
    record := Record(kind, window, action, url, title, width, height,
                     x, y, fullscreen, resizable, bridgeSource, nativeHook, assetProtocol);
    assert head + [x, y, fullscreen, resizable, bridgeSource, nativeHook, assetProtocol] == record.Wire();
    AllRead(p, cursor, record, next);
  }

  /** Where the operations of a handoff packet start, if its status line is an accepted one. */
  method HandoffOperationsRange(p: bytes, accepted: set<bytes>) returns (operations: Option<nat>)
    ensures operations == match HandoffSections(p, accepted) {
                            case NoHandoff => None
                            case Handoff(_, _, start) => Some(start)
                          }
    ensures operations.Some? ==> operations.value <= |p|
  {
    hide FindNewline, Decimal.ParseLength;
    var first := FindNewlineRange(p, 0);
    if first.None? || p[0..first.value] !in accepted {
      return None;
    }
    var second := FindNewlineRange(p, first.value + 1);
    if second.None? {
      return None;
    }
    var third := FindNewlineRange(p, second.value + 1);
    if third.None? {
      return None;
    }
    var bodyLength := ReadDigits(p, second.value + 1, third.value);
    if bodyLength.None? {
      return None;
    }
    var start := third.value + 1 + bodyLength.value;
    if start > |p| {
      return None;
    }
    if start < |p| && p[start] == NEWLINE {
      start := start + 1;
    }
    return Some(start);
  }

  /** The version line and the record count; every pass starts here. */
  method HandoffOperationRecords(p: bytes, accepted: set<bytes>) returns (ok: bool, cursor: nat, count: nat)
    ensures ok <==> BatchOf(p, accepted).Batch?
    ensures ok ==> BatchOf(p, accepted) == Batch(count, cursor) && cursor <= |p|
  {
    hide FindNewline, Decimal.ParseLength;
    cursor, count := 0, 0;
    var start := HandoffOperationsRange(p, accepted);
    if start.None? {
      return false, cursor, count;
    }
    var version := FindNewlineRange(p, start.value);
    if version.None? || p[start.value..version.value] != OPS_VERSION {
      return false, cursor, count;
    }
    var countEnd := FindNewlineRange(p, version.value + 1);
    if countEnd.None? {
      return false, cursor, count;
    }
    var n := ReadDigits(p, version.value + 1, countEnd.value);
    if n.None? {
      return false, cursor, count;
    }
    return true, countEnd.value + 1, n.value;
  }
}
