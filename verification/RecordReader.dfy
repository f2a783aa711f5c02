/** The readers of single texts that the bridge context calls: record numbers, control records and the
    immediate script. */
module RecordReader {
  import opened Results
  import opened Bytes
  import opened Words
  import opened PacketCodec
  import opened PacketReader
  import opened HandoffScript
  import opened LoopSpec
  import Decimal
  import JsonReader

  /** An optional minus sign and the digit loop. */
  method ParseRecordInt(value: bytes) returns (r: Option<int>)
    ensures r == ParseInt(value)
  {
    if value == [] {
      return None;
    }
    var negative := value[0] == MINUS;
    var start := if negative then 1 else 0;
    if start >= |value| || !Decimal.IsDigit(value[start]) {
      return None;
    }
    var index := start;
    var parsed: nat := 0;
    while index < |value| && Decimal.IsDigit(value[index])
      invariant start <= index <= |value|
      invariant Decimal.AllDigits(value[start..index]) && parsed == Decimal.Value(value[start..index])
    {
      MoreDigits(value, start, index);
      parsed := parsed * 10 + (value[index] - Decimal.ZERO) as nat;
      index := index + 1;
    }
    if index != |value| {
      assert value[start..][index - start] == value[index];
      assert !Decimal.AllDigits(value[start..]);
      assert value[0..] == value;
      return None;
    }
    assert value[start..index] == value[start..] && value[0..] == value;
    return Some(if negative then -(parsed as int) else parsed);
  }

  lemma MoreDigits(value: bytes, start: nat, index: nat)
    requires start <= index < |value| && Decimal.IsDigit(value[index])
    requires Decimal.AllDigits(value[start..index])
    ensures Decimal.AllDigits(value[start..index + 1])
    ensures Decimal.Value(value[start..index + 1]) ==
            Decimal.Value(value[start..index]) * 10 + (value[index] - Decimal.ZERO) as nat
  {
    var more := value[start..index + 1];
    assert more == value[start..index] + [value[index]];
    assert more[..|more| - 1] == value[start..index];
  }

  /** Two numbers, both of which must be there. */
  method ParsePair(first: bytes, second: bytes) returns (ok: bool, x: int, y: int)
    ensures ok <==> ParseInt(first).Some? && ParseInt(second).Some?
    ensures ok ==> x == ParseInt(first).value && y == ParseInt(second).value
  {
    hide ParseInt;
    x, y := 0, 0;
    var a := ParseRecordInt(first);
    var b := ParseRecordInt(second);
    ok := a.Some? && b.Some?;
    if ok {
      x, y := a.value, b.value;
    }
  }

  /** The toolkit call of a window-control record. */
  method ReadControl(r: Record, window: Handle) returns (call: Option<Call>)
    ensures call == ControlCall(r, window)
  {
    hide ParseInt;
    if r.action == SET_TITLE {
      return Some(SetTitle(window, CString(r.title)));
    }
    if r.action == SET_SIZE {
      var ok, width, height := ParsePair(r.width, r.height);
      return if ok && width > 0 && height > 0 then Some(Resize(window, width, height)) else None;
    }
    if r.action == SET_POSITION {
      var ok, x, y := ParsePair(r.x, r.y);
      return if ok then Some(Move(window, x, y)) else None;
    }
    if r.action == SET_FULLSCREEN {
      var on := ParseBool(r.fullscreen);
      return if on.Some? then Some(Fullscreen(window, on.value)) else None;
    }
    return if r.action == SHOW then Some(ShowAll(window))
           else if r.action == FOCUS then Some(Present(window))
           else if r.action == HIDE then Some(Hide(window))
           else if r.action == MINIMIZE then Some(Iconify(window))
           else if r.action == MAXIMIZE then Some(Maximize(window))
           else if r.action == UNMAXIMIZE then Some(Unmaximize(window))
           else None;
  }

  /** The call that opens a window, with its fallbacks. */
  method ReadOpenCall(r: Record, window: Handle, webview: Handle) returns (call: Call)
    ensures call == OpenCall(r, window, webview)
  {
    hide ParseInt;
    var width := ParseRecordInt(r.width);
    var height := ParseRecordInt(r.height);
    return OpenWindow(window, webview, CString(r.title), Positive(width, 960), Positive(height, 640),
                      Or(ParseBool(r.resizable), true), CString(r.url));
  }

  /** The next line of the packet text, if a newline ends it. */
  method NextPacketLine(text: bytes, cursor: nat) returns (r: LineRead)
    requires cursor <= |text|
    ensures r == ReadLine(text, cursor)
  {
    hide FindNewline;
    var newline := FindNewlineRange(text, cursor);
    return if newline.None? then NoLine else Line(text[cursor..newline.value], newline.value + 1);
  }

  /** strtol: blanks, one sign, digits up to the end of the line. */
  method ReadLong(line: bytes) returns (r: Option<int>)
    ensures r == WholeLong(line)
  {
    var start := JsonReader.SkipSpaces(line, 0, |line|);
    var negative := start < |line| && line[start] == MINUS;
    var digits := if negative || (start < |line| && line[start] == 43) then start + 1 else start;
    var index := digits;
    var value: nat := 0;
    while index < |line| && Decimal.IsDigit(line[index])
      invariant digits <= index <= |line|
      invariant Decimal.AllDigits(line[digits..index]) && value == Decimal.Value(line[digits..index])
    {
      MoreDigits(line, digits, index);
      value := value * 10 + (line[index] - Decimal.ZERO) as nat;
      index := index + 1;
    }
    if index == digits || index != |line| {
      assert index != |line| ==> line[digits..][index - digits] == line[index];
      return None;
    }
    assert line[digits..index] == line[digits..];
    return Some(if negative then -(value as int) else value);
  }

  method ReadImmediateScript(packet: bytes) returns (script: Option<bytes>)
    ensures script == ImmediateScript(packet)
  {
    hide ReadLine, WholeLong, CString;
    var text := CString(packet);
    var status := NextPacketLine(text, 0);
    if status.NoLine? || status.text != IMMEDIATE {
      return None;
    }
    var window := NextPacketLine(text, status.next);
    if window.NoLine? {
      return None;
    }
    var lengthLine := NextPacketLine(text, window.next);
    if lengthLine.NoLine? {
      return None;
    }
    var length := ReadLong(lengthLine.text);
    var body := lengthLine.next;
    if length.None? || length.value < 0 || length.value > INT32_MAX || length.value > |text| - body {
      return None;
    }
    return Some(text[body..body + length.value]);
  }
}
