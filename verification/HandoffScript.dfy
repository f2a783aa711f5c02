/** The immediate script of a handoff packet, which the Linux backend reads as a C string. */
module HandoffScript {
  import opened Results
  import opened Bytes
  import opened Words
  import opened PacketCodec
  import opened JsonScanner
  import Decimal

  /** strtol with base 10 on a whole line: leading space, one sign, digits, nothing else. A number
      beyond the range of `long` is beyond INT32_MAX too and is refused all the same. */
  function WholeLong(line: bytes): Option<int> {
    var start := SkipSpace(line, 0, |line|);
    var negative := start < |line| && line[start] == MINUS;
    var digits := if negative || (start < |line| && line[start] == 43) then start + 1 else start;
    if digits == |line| || !Decimal.AllDigits(line[digits..]) then None
    else Some(if negative then -(Decimal.Value(line[digits..]) as int) else Decimal.Value(line[digits..]))
  }

  function ImmediateScript(packet: bytes): Option<bytes> {
    var text := CString(packet);
    match ReadLine(text, 0)
    case NoLine => None
    case Line(status, second) =>
      if status != IMMEDIATE then None
      else
        match ReadLine(text, second)
        case NoLine => None
        case Line(_, third) =>
          match ReadLine(text, third)
          case NoLine => None
          case Line(lengthText, body) =>
            match WholeLong(lengthText)
            case None => None
            case Some(length) =>
              if length < 0 || length > INT32_MAX || length > |text| - body then None
              else Some(text[body..body + length])
  }

  lemma WholeLongPrinted(n: nat)
    ensures WholeLong(Decimal.Print(n)) == Some(n)
  {
    var line := Decimal.Print(n);
    Decimal.ValuePrint(n);
    assert Decimal.IsDigit(line[0]);
    assert SkipSpace(line, 0, |line|) == 0;
    assert line[0..] == line;
  }

  predicate Blanks(text: bytes) {
    forall j :: 0 <= j < |text| ==> 9 <= text[j] <= 13 || text[j] == SPACE
  }

  /** Blanks, at most one sign, some zeros and a decimal numeral. */
  ghost predicate LongParts(line: bytes, n: int, blanks: bytes, sign: bytes, zeros: nat, m: nat) {
    && Blanks(blanks) && line == blanks + (sign + (Decimal.Zeros(zeros) + Decimal.Print(m)))
    && ((sign == [] && n == m) || (sign == [43] && n == m) || (sign == [MINUS] && n == -(m as int)))
  }

  /** A line that is a whole number. */
  ghost predicate IsLong(line: bytes, n: int) {
    exists blanks: bytes, sign: bytes, zeros: nat, m: nat :: LongParts(line, n, blanks, sign, zeros, m)
  }

  lemma WholeLongExact(line: bytes, n: int)
    ensures WholeLong(line) == Some(n) <==> IsLong(line, n)
  {
    hide WholeLong, LongParts;
    if WholeLong(line) == Some(n) {
      LongFound(line, n);
    }
    if IsLong(line, n) {
      var blanks: bytes, sign: bytes, zeros: nat, m: nat :| LongParts(line, n, blanks, sign, zeros, m);
      LongRead(line, n, blanks, sign, zeros, m);
    }
  }

  lemma LongFound(line: bytes, n: int)
    requires WholeLong(line) == Some(n)
    ensures IsLong(line, n)
  {
    hide Decimal.Value, Decimal.Print, SkipSpace;
    var start := SkipSpace(line, 0, |line|);
    var at := if start < |line| && (line[start] == MINUS || line[start] == 43) then start + 1 else start;
    var blanks, sign, digits := line[..start], line[start..at], line[at..];
    SkippedBlanks(line, 0, |line|);
    var zeros := Decimal.ZerosAndNumeral(digits);
    assert line == blanks + (sign + digits);
    assert sign == if at == start then [] else [line[start]];
    assert LongParts(line, n, blanks, sign, zeros, Decimal.Value(digits));
  }

  lemma LongRead(line: bytes, n: int, blanks: bytes, sign: bytes, zeros: nat, m: nat)
    requires LongParts(line, n, blanks, sign, zeros, m)
    ensures WholeLong(line) == Some(n)
  {
    hide Decimal.Value, Decimal.Print, SkipSpace;
    var digits := Decimal.Zeros(zeros) + Decimal.Print(m);
    Decimal.ValueOfZeros(zeros, Decimal.Print(m));
    Decimal.ValuePrint(m);
    assert Decimal.IsDigit(digits[0]);
    assert line[|blanks|..] == sign + digits && (sign + digits)[|sign|..] == digits;
    assert line[|blanks|] == (sign + digits)[0];
    SkipExactly(line, 0, |blanks|);
    assert line[|blanks| + |sign|..] == digits;
  }

  lemma {:induction false} SkippedBlanks(t: bytes, i: nat, end: nat)
    requires i <= end <= |t|
    ensures forall j :: i <= j < SkipSpace(t, i, end) ==> 9 <= t[j] <= 13 || t[j] == SPACE
    decreases end - i
  {
    if i < end && IsSpace(t[i]) {
      SkippedBlanks(t, i + 1, end);
    }
  }

  lemma {:induction false} SkipExactly(t: bytes, i: nat, at: nat)
    requires i <= at < |t| && (forall j :: i <= j < at ==> 9 <= t[j] <= 13 || t[j] == SPACE)
    requires !(9 <= t[at] <= 13 || t[at] == SPACE)
    ensures SkipSpace(t, i, |t|) == at
    decreases at - i
  {
    if i < at {
      SkipExactly(t, i + 1, at);
    }
  }

  lemma CStringAtLeast(b: bytes, n: nat)
    requires n <= |b| && NUL !in b[..n]
    ensures |CString(b)| >= n
  {}

  /** The layout of a packet as seen through the C string of its bytes. */
  lemma ScriptFromLayout(text: bytes, window: bytes, bodyLength: nat)
    requires NEWLINE !in window && NEWLINE !in IMMEDIATE
    requires At(text, 0, IMMEDIATE + [NEWLINE]) && At(text, |IMMEDIATE| + 1, window + [NEWLINE])
    requires At(text, |IMMEDIATE| + |window| + 2, LengthLine(bodyLength))
    requires NUL !in text && bodyLength <= INT32_MAX
    ensures var body := |IMMEDIATE| + |window| + 2 + |LengthLine(bodyLength)|;
            ImmediateScript(text) == if body + bodyLength <= |text| then Some(text[body..body + bodyLength]) else None
  {
    hide ReadLine, At, WholeLong;
    ReadsLine(text, 0, IMMEDIATE);
    ReadsLine(text, |IMMEDIATE| + 1, window);
    DigitsLine(text, |IMMEDIATE| + |window| + 2, bodyLength);
    WholeLongPrinted(bodyLength);
  }

  lemma DigitsLine(text: bytes, i: nat, n: nat)
    requires At(text, i, LengthLine(n))
    ensures ReadLine(text, i) == Line(Decimal.Print(n), i + |LengthLine(n)|)
  {
    hide At;
    ReadsLine(text, i, Decimal.Print(n));
  }

  lemma ScriptOfCString(packet: bytes)
    ensures ImmediateScript(packet) == ImmediateScript(CString(packet))
  {
    hide ReadLine, WholeLong;
  }

  lemma AtPrefix(q: bytes, p: bytes, i: nat, w: bytes)
    requires q <= p && At(p, i, w) && i + |w| <= |q|
    ensures At(q, i, w)
  {
    forall j | 0 <= j < |w| ensures q[i + j] == w[j] {
      assert p[i + j] == w[j];
    }
  }

  /** The script comes back exactly when neither the window nor the body holds a NUL byte. */
  lemma ImmediateScriptExact(window: bytes, body: bytes, records: seq<Record>)
    requires NEWLINE !in window && |EncodeHandoff(IMMEDIATE, window, body, records)| <= INT32_MAX
    ensures ImmediateScript(EncodeHandoff(IMMEDIATE, window, body, records)) == Some(body) <==>
            NUL !in window && NUL !in body
  {
    hide At, EncodeOperations, LengthLine, CString, ImmediateScript, Layout;
    var p := EncodeHandoff(IMMEDIATE, window, body, records);
    var tail := [NEWLINE] + EncodeOperations(records);
    HeaderLayout(p, IMMEDIATE, window, LengthLine(|body|), body, tail);
    var start := |IMMEDIATE| + |window| + 2 + |LengthLine(|body|)|;
    AtSlice(p, start, body);
    ScriptOfCString(p);
    if NUL !in window && NUL !in body {
      CleanHeader(p, window, body, start);
      CStringAtLeast(p, start + |body|);
      var text := CString(p);
      assert start + |body| <= |text|;
      AtPrefix(text, p, 0, IMMEDIATE + [NEWLINE]);
      AtPrefix(text, p, |IMMEDIATE| + 1, window + [NEWLINE]);
      AtPrefix(text, p, |IMMEDIATE| + |window| + 2, LengthLine(|body|));
      ScriptFromLayout(text, window, |body|);
      assert text[start..start + |body|] == p[start..start + |body|];
    } else if ImmediateScript(p) == Some(body) {
      ScriptInside(p, window, body);
    }
  }

  /** Everything before the end of a NUL-free body is NUL-free when the window is. */
  lemma CleanHeader(p: bytes, window: bytes, body: bytes, start: nat)
    requires NUL !in window && NUL !in body
    requires start == |IMMEDIATE| + |window| + 2 + |LengthLine(|body|)| && start + |body| <= |p|
    requires At(p, 0, IMMEDIATE + [NEWLINE]) && At(p, |IMMEDIATE| + 1, window + [NEWLINE])
    requires At(p, |IMMEDIATE| + |window| + 2, LengthLine(|body|)) && At(p, start, body)
    ensures NUL !in p[..start + |body|]
  {
    forall i | 0 <= i < start + |body| ensures p[i] != NUL {
      if i <= |IMMEDIATE| {
        assert p[0 + i] == (IMMEDIATE + [NEWLINE])[i];
      } else if i < |IMMEDIATE| + |window| + 2 {
        var j := i - |IMMEDIATE| - 1;
        assert p[|IMMEDIATE| + 1 + j] == (window + [NEWLINE])[j];
      } else if i < start {
        var j := i - |IMMEDIATE| - |window| - 2;
        assert p[|IMMEDIATE| + |window| + 2 + j] == LengthLine(|body|)[j];
        assert j < |Decimal.Print(|body|)| ==> Decimal.IsDigit(Decimal.Print(|body|)[j]);
      } else {
        assert p[start + (i - start)] == body[i - start];
      }
    }
  }

  /** A script that comes back is NUL-free, and so is the window line before it. */
  lemma ScriptInside(p: bytes, window: bytes, body: bytes)
    requires NEWLINE !in window && ImmediateScript(p) == Some(body)
    requires At(p, 0, IMMEDIATE + [NEWLINE]) && At(p, |IMMEDIATE| + 1, window + [NEWLINE])
    ensures NUL !in window && NUL !in body
  {
    hide At, WholeLong, FindNewline;
    var text := CString(p);
    var first := ReadLine(text, 0);
    var second := ReadLine(text, first.next);
    LineInPrefix(text, p, 0);
    LineInPrefix(text, p, first.next);
    ReadsLine(p, 0, IMMEDIATE);
    ReadsLine(p, |IMMEDIATE| + 1, window);
    assert window == second.text;
    assert second.text == text[first.next..first.next + |window|];
  }

  // ----- every packet with a script -----

  /** Four parts behind each other: the status, a line for the window, a line with the length, the script. */
  ghost predicate ScriptParts(text: bytes, window: bytes, line: bytes, script: bytes, rest: bytes) {
    && text == Layout(Ascii("immediate"), window, line + [NEWLINE], script, rest)
    && NEWLINE !in window && NEWLINE !in line && IsLong(line, |script|) && |script| <= INT32_MAX
  }

  /** A packet, whatever its bytes, has a script exactly when its C string consists of these parts. */
  lemma ScriptExact(packet: bytes, script: bytes)
    ensures ImmediateScript(packet) == Some(script) <==>
            exists window, line, rest :: ScriptParts(CString(packet), window, line, script, rest)
  {
    hide ImmediateScript, ScriptParts, CString;
    ScriptOfCString(packet);
    var text := CString(packet);
    assert CString(text) == text;
    if ImmediateScript(text) == Some(script) {
      ScriptFound(text, script);
    }
    if window, line, rest :| ScriptParts(text, window, line, script, rest) {
      ScriptRead(text, window, line, script, rest);
    }
  }

  lemma ScriptFound(text: bytes, script: bytes)
    requires NUL !in text && ImmediateScript(text) == Some(script)
    ensures exists window, line, rest :: ScriptParts(text, window, line, script, rest)
  {
    hide WholeLong, IsLong, FindNewline, Ascii, CString;
    PacketWords();
    var second := ReadLine(text, 0).next;
    var third := ReadLine(text, second).next;
    var body := ReadLine(text, third).next;
    var window, line := ReadLine(text, second).text, ReadLine(text, third).text;
    LineHoldsNoNewline(text, second);
    LineHoldsNoNewline(text, third);
    WholeLongExact(line, |script|);
    LineStands(text, 0);
    LineStands(text, second);
    LineStands(text, third);
    var rest := text[body + |script|..];
    assert text[body..] == script + rest;
    assert text[third..] == line + [NEWLINE] + (script + rest);
    assert text == text[0..];
    assert ScriptParts(text, window, line, script, rest);
  }

  lemma ScriptRead(text: bytes, window: bytes, line: bytes, script: bytes, rest: bytes)
    requires NUL !in text && ScriptParts(text, window, line, script, rest)
    ensures ImmediateScript(text) == Some(script)
  {
    hide WholeLong, IsLong, FindNewline, Ascii, CString, At, Layout, ReadLine;
    PacketWords();
    assert NEWLINE !in IMMEDIATE;
    HeaderLayout(text, IMMEDIATE, window, line + [NEWLINE], script, rest);
    ReadsLine(text, 0, IMMEDIATE);
    ReadsLine(text, |IMMEDIATE| + 1, window);
    ReadsLine(text, |IMMEDIATE| + |window| + 2, line);
    WholeLongExact(line, |script|);
    var body := |IMMEDIATE| + |window| + 2 + |line| + 1;
    AtSlice(text, body, script);
    assert CString(text) == text;
  }
}
