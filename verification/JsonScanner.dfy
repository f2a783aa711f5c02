/** The JSON range scanner of the Linux and Windows backends as functions over positions, and its
    correctness on every text of the RFC 8259 grammar. A range is `t[i..end]`. */
module JsonScanner {
  import opened Results
  import opened Bytes
  import opened JsonGrammar

  /** isspace in the C locale: wider than the four JSON blanks. */
  predicate IsSpace(b: byte) {
    9 <= b <= 13 || b == SPACE
  }

  predicate IsDelimiter(b: byte) {
    b == COMMA || b == CLOSE_BRACE || b == CLOSE_BRACKET
  }

  function SkipSpace(t: bytes, i: nat, end: nat): (r: nat)
    requires i <= end <= |t|
    ensures i <= r <= end && (r < end ==> !IsSpace(t[r]))
    decreases end - i
  {
    if i < end && IsSpace(t[i]) then SkipSpace(t, i + 1, end) else i
  }

  /** From inside a string to just after its closing quote. */
  function StringScan(t: bytes, i: nat, end: nat): (r: Option<nat>)
    requires i <= end <= |t|
    ensures r.Some? ==> i < r.value <= end && t[r.value - 1] == QUOTE
    decreases end - i
  {
    if i == end then None
    else if t[i] == BACKSLASH then StringScan(t, if i + 1 < end then i + 2 else i + 1, end)
    else if t[i] == QUOTE then Some(i + 1)
    else StringScan(t, i + 1, end)
  }

  function StringEnd(t: bytes, i: nat, end: nat): (r: Option<nat>)
    requires i <= end <= |t|
    ensures r.Some? ==> i + 2 <= r.value <= end && t[i] == QUOTE
  {
    if i == end || t[i] != QUOTE then None else StringScan(t, i + 1, end)
  }

  function Closing(open: byte): byte {
    if open == OPEN_BRACE then CLOSE_BRACE else CLOSE_BRACKET
  }

  /** Only the bracket kind `open` is counted; strings are skipped. */
  function ContainerScan(t: bytes, i: nat, end: nat, open: byte, depth: nat): (r: Option<nat>)
    requires i <= end <= |t| && depth > 0
    ensures r.Some? ==> i < r.value <= end
    decreases end - i
  {
    if i == end then None
    else if t[i] == QUOTE then
      match StringEnd(t, i, end)
      case None => None
      case Some(next) => ContainerScan(t, next, end, open, depth)
    else if t[i] == open then ContainerScan(t, i + 1, end, open, depth + 1)
    else if t[i] == Closing(open) then
      if depth == 1 then Some(i + 1) else ContainerScan(t, i + 1, end, open, depth - 1)
    else ContainerScan(t, i + 1, end, open, depth)
  }

  function ScalarScan(t: bytes, i: nat, end: nat): (r: nat)
    requires i <= end <= |t|
    ensures i <= r <= end
    decreases end - i
  {
    if i < end && !IsDelimiter(t[i]) then ScalarScan(t, i + 1, end) else i
  }

  function ValueEnd(t: bytes, i: nat, end: nat): (r: Option<nat>)
    requires i <= end <= |t|
    ensures r.Some? ==> i <= r.value <= end
  {
    var cursor := SkipSpace(t, i, end);
    if cursor == end then None
    else if t[cursor] == QUOTE then StringEnd(t, cursor, end)
    else if t[cursor] == OPEN_BRACE || t[cursor] == OPEN_BRACKET
    then ContainerScan(t, cursor + 1, end, t[cursor], 1)
    else Some(ScalarScan(t, cursor, end))
  }

  /** `value..stop` is the range of a member's value. */
  datatype Member = NoMember | Member(value: nat, stop: nat)

  function FindMember(t: bytes, start: nat, end: nat, name: bytes): (r: Member)
    requires start <= end <= |t|
    ensures r.Member? ==> start < r.value <= r.stop <= end
  {
    var cursor := SkipSpace(t, start, end);
    if cursor == end || t[cursor] != OPEN_BRACE then NoMember else MemberScan(t, cursor + 1, end, name)
  }

  function MemberScan(t: bytes, i: nat, end: nat, name: bytes): (r: Member)
    requires i <= end <= |t|
    ensures r.Member? ==> i < r.value <= r.stop <= end
    decreases end - i
  {
    match MemberStep(t, i, end, name)
    case Done(member) => member
    case Continue(next) => MemberScan(t, next, end, name)
  }

  datatype Step = Done(member: Member) | Continue(next: nat)

  /** One turn of the lookup loop. */
  function MemberStep(t: bytes, i: nat, end: nat, name: bytes): (r: Step)
    requires i <= end <= |t|
    ensures r.Done? && r.member.Member? ==> i < r.member.value <= r.member.stop <= end
    ensures r.Continue? ==> i < r.next <= end
  {
    var key := SkipSpace(t, i, end);
    if key == end || t[key] == CLOSE_BRACE then Done(NoMember)
    else
      match StringEnd(t, key, end)
      case None => Done(NoMember)
      case Some(keyEnd) =>
        var colon := SkipSpace(t, keyEnd, end);
        if colon == end || t[colon] != COLON then Done(NoMember)
        else
          var value := SkipSpace(t, colon + 1, end);
          match ValueEnd(t, value, end)
          case None => Done(NoMember)
          case Some(stop) =>
            if t[key + 1..keyEnd - 1] == name then Done(Member(value, stop))
            else Continue(AfterComma(t, SkipSpace(t, stop, end), end))
  }

  function AfterComma(t: bytes, i: nat, end: nat): (r: nat)
    requires i <= end <= |t|
    ensures i <= r <= end
  {
    if i < end && t[i] == COMMA then i + 1 else i
  }

  // ----- blanks and strings -----

  lemma AtByte(t: bytes, i: nat, b: byte)
    requires At(t, i, [b])
    ensures i < |t| && t[i] == b
  {
    assert t[i + 0] == [b][0];
  }

  /** Skipping stops right after the blanks, unless more space follows. */
  lemma {:induction false} SkipBlank(t: bytes, i: nat, end: nat, w: bytes)
    requires At(t, i, w) && Blank(w) && i + |w| <= end <= |t|
    requires i + |w| < end ==> !IsSpace(t[i + |w|])
    ensures SkipSpace(t, i, end) == i + |w|
    decreases |w|
  {
    if w != [] {
      assert t[i + 0] == w[0];
      AtTail(t, i, w, 1);
      SkipBlank(t, i + 1, end, w[1..]);
    }
  }

  lemma AtTail(t: bytes, i: nat, w: bytes, n: nat)
    requires At(t, i, w) && n <= |w|
    ensures At(t, i + n, w[n..])
  {
    forall j | 0 <= j < |w[n..]| ensures t[i + n + j] == w[n..][j] {
      assert t[i + (n + j)] == w[n + j];
    }
  }

  lemma {:induction false} StringSkip(t: bytes, i: nat, n: nat, end: nat)
    requires i + n <= end <= |t|
    requires forall j :: i <= j < i + n ==> t[j] != QUOTE && t[j] != BACKSLASH
    ensures StringScan(t, i, end) == StringScan(t, i + n, end)
    decreases n
  {
    if n > 0 {
      StringSkip(t, i + 1, n - 1, end);
    }
  }

  lemma {:induction false} StringScanRaw(t: bytes, i: nat, end: nat, raw: bytes)
    requires At(t, i, raw) && WellFormedRaw(raw) && i + |raw| < end <= |t| && t[i + |raw|] == QUOTE
    ensures StringScan(t, i, end) == Some(i + |raw| + 1)
    decreases |raw|
  {
    if raw != [] {
      assert t[i + 0] == raw[0];
      if raw[0] != BACKSLASH {
        AtTail(t, i, raw, 1);
        StringScanRaw(t, i + 1, end, raw[1..]);
      } else if raw[1] == 117 {
        forall j | i + 2 <= j < i + 6 ensures t[j] != QUOTE && t[j] != BACKSLASH {
          assert t[i + (j - i)] == raw[j - i] && IsHex(raw[j - i]);
        }
        StringSkip(t, i + 2, 4, end);
        AtTail(t, i, raw, 6);
        StringScanRaw(t, i + 6, end, raw[6..]);
      } else {
        AtTail(t, i, raw, 2);
        StringScanRaw(t, i + 2, end, raw[2..]);
      }
    }
  }

  lemma StringEndQuoted(t: bytes, i: nat, end: nat, raw: bytes)
    requires At(t, i, Quoted(raw)) && WellFormedRaw(raw) && i + |Quoted(raw)| <= end <= |t|
    ensures StringEnd(t, i, end) == Some(i + |Quoted(raw)|)
    ensures t[i + 1..i + |Quoted(raw)| - 1] == raw
  {
    AtSplit(t, i, [QUOTE] + raw, [QUOTE]);
    AtSplit(t, i, [QUOTE], raw);
    AtByte(t, i, QUOTE);
    AtByte(t, i + 1 + |raw|, QUOTE);
    AtSlice(t, i + 1, raw);
    StringScanRaw(t, i + 1, end, raw);
  }

  // ----- one bracket kind is enough -----

  predicate IsOpening(b: byte) {
    b == OPEN_BRACE || b == OPEN_BRACKET
  }

  predicate IsPlain(b: byte) {
    b != QUOTE && !IsOpening(b) && b != CLOSE_BRACE && b != CLOSE_BRACKET
  }

  lemma {:induction false} ScanPlain(t: bytes, i: nat, w: bytes, end: nat, open: byte, depth: nat)
    requires At(t, i, w) && i + |w| <= end <= |t| && IsOpening(open) && depth > 0
    requires forall j :: 0 <= j < |w| ==> IsPlain(w[j])
    ensures ContainerScan(t, i, end, open, depth) == ContainerScan(t, i + |w|, end, open, depth)
    decreases |w|
  {
    if w != [] {
      assert t[i + 0] == w[0];
      AtTail(t, i, w, 1);
      ScanPlain(t, i + 1, w[1..], end, open, depth);
    }
  }

  lemma ScanQuoted(t: bytes, i: nat, raw: bytes, end: nat, open: byte, depth: nat)
    requires At(t, i, Quoted(raw)) && WellFormedRaw(raw) && i + |Quoted(raw)| <= end <= |t|
    requires IsOpening(open) && depth > 0
    ensures ContainerScan(t, i, end, open, depth) == ContainerScan(t, i + |Quoted(raw)|, end, open, depth)
  {
    StringEndQuoted(t, i, end, raw);
  }

  /** A scan of either bracket kind passes over a whole value and comes out at the same depth. */
  lemma {:induction false} ScanValue(t: bytes, i: nat, v: Value, end: nat, open: byte, depth: nat)
    requires At(t, i, Print(v)) && WellFormed(v) && i + |Print(v)| <= end <= |t|
    requires IsOpening(open) && depth > 0
    ensures ContainerScan(t, i, end, open, depth) == ContainerScan(t, i + |Print(v)|, end, open, depth)
    decreases v, 2
  {
    hide At, WellFormedRaw, IsScalar;
    match v
    case Scalar(text) =>
      ScalarBytes(text);
      ScanPlain(t, i, text, end, open, depth);
    case Str(raw) =>
      ScanQuoted(t, i, raw, end, open, depth);
    case Arr(pad, elems) =>
      var body := ArrayBody(pad, elems);
      AtSplit(t, i, [OPEN_BRACKET], body + [CLOSE_BRACKET]);
      AtSplit(t, i + 1, body, [CLOSE_BRACKET]);
      AtByte(t, i, OPEN_BRACKET);
      AtByte(t, i + 1 + |body|, CLOSE_BRACKET);
      ScanArrayBody(t, i + 1, pad, elems, end, open, if open == OPEN_BRACKET then depth + 1 else depth);
    case Obj(pad, members) =>
      var body := ObjectBody(pad, members);
      AtSplit(t, i, [OPEN_BRACE], body + [CLOSE_BRACE]);
      AtSplit(t, i + 1, body, [CLOSE_BRACE]);
      AtByte(t, i, OPEN_BRACE);
      AtByte(t, i + 1 + |body|, CLOSE_BRACE);
      ScanObjectBody(t, i + 1, pad, members, end, open, if open == OPEN_BRACE then depth + 1 else depth);
  }

  lemma {:induction false} ScanArrayBody(t: bytes, i: nat, pad: bytes, elems: Elems, end: nat, open: byte, depth: nat)
    requires At(t, i, ArrayBody(pad, elems)) && Blank(pad) && WellFormedElems(elems)
    requires i + |ArrayBody(pad, elems)| <= end <= |t| && IsOpening(open) && depth > 0
    ensures ContainerScan(t, i, end, open, depth) ==
            ContainerScan(t, i + |ArrayBody(pad, elems)|, end, open, depth)
    decreases elems, 1
  {
    if elems.ENil? {
      ScanPlain(t, i, pad, end, open, depth);
    } else {
      ScanElems(t, i, elems, end, open, depth);
    }
  }

  lemma {:induction false} ScanElems(t: bytes, i: nat, elems: Elems, end: nat, open: byte, depth: nat)
    requires At(t, i, PrintElems(elems)) && WellFormedElems(elems)
    requires i + |PrintElems(elems)| <= end <= |t| && IsOpening(open) && depth > 0
    ensures ContainerScan(t, i, end, open, depth) ==
            ContainerScan(t, i + |PrintElems(elems)|, end, open, depth)
    decreases elems, 0
  {
    hide At, ContainerScan, Print, WellFormed;
    match elems
    case ENil =>
    case ECons(before, v, after, rest) =>
      AtSplit(t, i, before, Print(v) + (after + ElemsTail(rest)));
      ScanPlain(t, i, before, end, open, depth);
      var j := i + |before|;
      AtSplit(t, j, Print(v), after + ElemsTail(rest));
      ScanValue(t, j, v, end, open, depth);
      j := j + |Print(v)|;
      AtSplit(t, j, after, ElemsTail(rest));
      ScanPlain(t, j, after, end, open, depth);
      j := j + |after|;
      if rest.ECons? {
        AtSplit(t, j, [COMMA], PrintElems(rest));
        ScanPlain(t, j, [COMMA], end, open, depth);
        ScanElems(t, j + 1, rest, end, open, depth);
      }
  }

  lemma {:induction false} ScanObjectBody(t: bytes, i: nat, pad: bytes, members: Members, end: nat, open: byte,
                                          depth: nat)
    requires At(t, i, ObjectBody(pad, members)) && Blank(pad) && WellFormedMembers(members)
    requires i + |ObjectBody(pad, members)| <= end <= |t| && IsOpening(open) && depth > 0
    ensures ContainerScan(t, i, end, open, depth) ==
            ContainerScan(t, i + |ObjectBody(pad, members)|, end, open, depth)
    decreases members, 1
  {
    if members.MNil? {
      ScanPlain(t, i, pad, end, open, depth);
    } else {
      ScanMembers(t, i, members, end, open, depth);
    }
  }

  lemma {:induction false} ScanMembers(t: bytes, i: nat, members: Members, end: nat, open: byte, depth: nat)
    requires At(t, i, PrintMembers(members)) && WellFormedMembers(members)
    requires i + |PrintMembers(members)| <= end <= |t| && IsOpening(open) && depth > 0
    ensures ContainerScan(t, i, end, open, depth) ==
            ContainerScan(t, i + |PrintMembers(members)|, end, open, depth)
    decreases members, 0
  {
    hide At, ContainerScan, Print, WellFormed, WellFormedRaw, Quoted;
    match members
    case MNil =>
    case MCons(before, key, beforeColon, afterColon, v, after, rest) =>
      MemberLayout(t, i, members);
      ScanPlain(t, i, before, end, open, depth);
      var j := i + |before|;
      ScanQuoted(t, j, key, end, open, depth);
      j := j + |Quoted(key)|;
      ScanPlain(t, j, beforeColon, end, open, depth);
      j := j + |beforeColon|;
      ScanPlain(t, j, [COLON], end, open, depth);
      ScanPlain(t, j + 1, afterColon, end, open, depth);
      j := j + 1 + |afterColon|;
      ScanValue(t, j, v, end, open, depth);
      j := j + |Print(v)|;
      ScanPlain(t, j, after, end, open, depth);
      j := j + |after|;
      if rest.MCons? {
        AtSplit(t, j, [COMMA], PrintMembers(rest));
        ScanPlain(t, j, [COMMA], end, open, depth);
        ScanMembers(t, j + 1, rest, end, open, depth);
      }
  }

  /** Offset of a member's value from the start of the member. */
  function ValueOffset(m: Members): nat
    requires m.MCons?
  {
    |m.before| + |Quoted(m.key)| + |m.beforeColon| + 1 + |m.afterColon|
  }

  lemma MemberLayout(t: bytes, i: nat, m: Members)
    requires m.MCons? && At(t, i, PrintMembers(m))
    ensures At(t, i, m.before) && At(t, i + |m.before|, Quoted(m.key))
    ensures At(t, i + |m.before| + |Quoted(m.key)|, m.beforeColon)
    ensures At(t, i + |m.before| + |Quoted(m.key)| + |m.beforeColon|, [COLON])
    ensures At(t, i + |m.before| + |Quoted(m.key)| + |m.beforeColon| + 1, m.afterColon)
    ensures At(t, i + ValueOffset(m), Print(m.v)) && At(t, i + ValueOffset(m) + |Print(m.v)|, m.after)
    ensures At(t, i + ValueOffset(m) + |Print(m.v)| + |m.after|, MembersTail(m.rest))
    ensures |PrintMembers(m)| == ValueOffset(m) + |Print(m.v)| + |m.after| + |MembersTail(m.rest)|
  {
    hide At, Print, Quoted, MembersTail;
    var tail := m.after + MembersTail(m.rest);
    var value := m.afterColon + (Print(m.v) + tail);
    var colon := m.beforeColon + ([COLON] + value);
    AtSplit(t, i, m.before, Quoted(m.key) + colon);
    var j := i + |m.before|;
    AtSplit(t, j, Quoted(m.key), colon);
    j := j + |Quoted(m.key)|;
    AtSplit(t, j, m.beforeColon, [COLON] + value);
    j := j + |m.beforeColon|;
    AtSplit(t, j, [COLON], value);
    AtSplit(t, j + 1, m.afterColon, Print(m.v) + tail);
    j := j + 1 + |m.afterColon|;
    AtSplit(t, j, Print(m.v), tail);
    AtSplit(t, j + |Print(m.v)|, m.after, MembersTail(m.rest));
  }

  // ----- where a value ends -----

  lemma FirstByte(v: Value)
    requires WellFormed(v)
    ensures Print(v) != []
    ensures var b := Print(v)[0];
            && !IsSpace(b) && !IsDelimiter(b)
            && (b == QUOTE <==> v.Str?) && (b == OPEN_BRACKET <==> v.Arr?) && (b == OPEN_BRACE <==> v.Obj?)
  {
    if v.Scalar? {
      ScalarBytes(v.text);
    }
  }

  /** Arrays and objects end at their own closing bracket. */
  lemma ContainerEnd(t: bytes, i: nat, end: nat, v: Value)
    requires At(t, i, Print(v)) && WellFormed(v) && i + |Print(v)| <= end <= |t|
    requires v.Arr? || v.Obj?
    ensures ContainerScan(t, i + 1, end, Print(v)[0], 1) == Some(i + |Print(v)|)
  {
    hide At, WellFormedElems, WellFormedMembers, PrintElems, PrintMembers;
    match v
    case Arr(pad, elems) =>
      var body := ArrayBody(pad, elems);
      AtSplit(t, i, [OPEN_BRACKET], body + [CLOSE_BRACKET]);
      AtSplit(t, i + 1, body, [CLOSE_BRACKET]);
      AtByte(t, i + 1 + |body|, CLOSE_BRACKET);
      ScanArrayBody(t, i + 1, pad, elems, end, OPEN_BRACKET, 1);
    case Obj(pad, members) =>
      var body := ObjectBody(pad, members);
      AtSplit(t, i, [OPEN_BRACE], body + [CLOSE_BRACE]);
      AtSplit(t, i + 1, body, [CLOSE_BRACE]);
      AtByte(t, i + 1 + |body|, CLOSE_BRACE);
      ScanObjectBody(t, i + 1, pad, members, end, OPEN_BRACE, 1);
  }

  lemma {:induction false} ScalarStop(t: bytes, i: nat, end: nat, w: bytes)
    requires At(t, i, w) && i + |w| <= end <= |t|
    requires forall j :: 0 <= j < |w| ==> !IsDelimiter(w[j])
    ensures ScalarScan(t, i, end) == ScalarScan(t, i + |w|, end)
    decreases |w|
  {
    if w != [] {
      assert t[i + 0] == w[0];
      AtTail(t, i, w, 1);
      ScalarStop(t, i + 1, end, w[1..]);
    }
  }

  /** How far past its last byte the scanner takes a value: a number or literal swallows the blanks
      that follow it. */
  function Stop(v: Value, after: bytes): nat {
    |Print(v)| + if v.Scalar? then |after| else 0
  }

  /** The value `v` with the blanks after it stands at `i`, and the range or a delimiter follows. */
  ghost predicate Stands(t: bytes, i: nat, end: nat, v: Value, after: bytes) {
    && end <= |t| && WellFormed(v) && Blank(after)
    && At(t, i, Print(v)) && At(t, i + |Print(v)|, after)
    && var next := i + |Print(v)| + |after|;
       next <= end && (next < end ==> IsDelimiter(t[next]))
  }

  /** The scanner stops exactly at the end of every well-formed value; for numbers and literals it
      stops at the next delimiter, with only blanks between. */
  lemma ValueEndExact(t: bytes, i: nat, end: nat, v: Value, after: bytes)
    requires Stands(t, i, end, v, after)
    ensures ValueEnd(t, i, end) == Some(i + Stop(v, after))
    ensures SkipSpace(t, i + Stop(v, after), end) == i + |Print(v)| + |after|
  {
    hide At, WellFormed, StringEnd, ContainerScan, ScalarScan, PrintElems, PrintMembers;
    var end' := i + |Print(v)|;
    AtSlice(t, i, Print(v));
    FirstByte(v);
    assert t[i] == Print(v)[0];
    SkipBlank(t, end', end, after);
    match v
    case Scalar(text) =>
      ScalarValueEnd(t, i, end, text, after);
    case Str(raw) =>
      assert WellFormedRaw(raw) by { StrIsRaw(v); }
      StringEndQuoted(t, i, end, raw);
    case Arr(_, _) =>
      ContainerEnd(t, i, end, v);
    case Obj(_, _) =>
      ContainerEnd(t, i, end, v);
  }

  lemma StrIsRaw(v: Value)
    requires v.Str? && WellFormed(v)
    ensures WellFormedRaw(v.raw)
  {}

  lemma ScalarValueEnd(t: bytes, i: nat, end: nat, text: bytes, after: bytes)
    requires Stands(t, i, end, Scalar(text), after)
    ensures ScalarScan(t, i, end) == i + |text| + |after|
    ensures SkipSpace(t, i + |text| + |after|, end) == i + |text| + |after|
  {
    hide At, IsScalar, Blank, Stands, SkipSpace, ScalarScan;
    ScalarStands(t, i, end, text, after);
    ScalarRuns(t, i, end, text, after);
    AtDelimiter(t, i + |text| + |after|, end);
  }

  /** Neither the scalar nor the blanks after it stop the scan. */
  lemma ScalarRuns(t: bytes, i: nat, end: nat, text: bytes, after: bytes)
    requires IsScalar(text) && Blank(after) && At(t, i, text) && At(t, i + |text|, after)
    requires i + |text| + |after| <= end <= |t|
    ensures ScalarScan(t, i, end) == ScalarScan(t, i + |text| + |after|, end)
  {
    hide At, IsScalar, ScalarScan, IsDelimiter, IsScalarByte, Blank;
    ScalarBytes(text);
    NoDelimiters(text, after);
    ScalarStop(t, i, end, text);
    ScalarStop(t, i + |text|, end, after);
  }

  lemma ScalarStands(t: bytes, i: nat, end: nat, text: bytes, after: bytes)
    requires Stands(t, i, end, Scalar(text), after)
    ensures IsScalar(text) && Blank(after) && At(t, i, text) && At(t, i + |text|, after)
    ensures i + |text| + |after| <= end <= |t|
    ensures i + |text| + |after| < end ==> IsDelimiter(t[i + |text| + |after|])
  {
    hide At, IsScalar, Blank;
  }

  lemma NoDelimiters(text: bytes, after: bytes)
    requires (forall j :: 0 <= j < |text| ==> IsScalarByte(text[j])) && Blank(after)
    ensures forall j :: 0 <= j < |text| ==> !IsDelimiter(text[j])
    ensures forall j :: 0 <= j < |after| ==> !IsDelimiter(after[j])
  {}

  lemma AtDelimiter(t: bytes, i: nat, end: nat)
    requires i <= end <= |t| && (i < end ==> IsDelimiter(t[i]))
    ensures ScalarScan(t, i, end) == i && SkipSpace(t, i, end) == i
  {}

  // ----- member lookup -----

  datatype Found = Missing | Found(value: nat, v: Value, after: bytes)

  /** The first member of the top level whose raw key is `name`, with the position of its value when
      the members are printed from `i` on. */
  function Locate(members: Members, name: bytes, i: nat): Found {
    match members
    case MNil => Missing
    case MCons(_, key, _, _, v, after, rest) =>
      if key == name then Found(i + ValueOffset(members), v, after)
      else Locate(rest, name, i + ValueOffset(members) + |Print(v)| + |after| + 1)
  }

  function Located(found: Found): Member {
    match found
    case Missing => NoMember
    case Found(value, v, after) => Member(value, value + Stop(v, after))
  }

  /** Printed members, then the end of the range or the closing brace of their object. */
  ghost predicate MembersStand(t: bytes, i: nat, end: nat, members: Members) {
    && end <= |t| && WellFormedMembers(members) && At(t, i, PrintMembers(members))
    && var next := i + |PrintMembers(members)|;
       next <= end && (next < end ==> t[next] == CLOSE_BRACE)
  }

  lemma {:induction false} MemberScanExact(t: bytes, i: nat, end: nat, name: bytes, members: Members)
    requires MembersStand(t, i, end, members)
    ensures MemberScan(t, i, end, name) == Located(Locate(members, name, i))
    decreases members
  {
    hide At, WellFormed, WellFormedRaw, Print, MemberStep, Quoted, Stop, ValueOffset;
    if members.MNil? {
      NoMoreMembers(t, i, end, name);
    } else {
      MemberTurn(t, i, end, name, members);
      var next := i + ValueOffset(members) + |Print(members.v)| + |members.after|;
      if members.rest.MCons? {
        MemberScanExact(t, next + 1, end, name, members.rest);
      } else {
        NoMoreMembers(t, next, end, name);
      }
    }
  }

  lemma NoMoreMembers(t: bytes, i: nat, end: nat, name: bytes)
    requires i <= end <= |t| && (i < end ==> t[i] == CLOSE_BRACE)
    ensures MemberScan(t, i, end, name) == NoMember
  {}

  lemma MemberTurn(t: bytes, i: nat, end: nat, name: bytes, m: Members)
    requires m.MCons? && MembersStand(t, i, end, m)
    ensures var value := i + ValueOffset(m);
            var next := value + |Print(m.v)| + |m.after|;
            && next <= end
            && (m.rest.MNil? ==> next == i + |PrintMembers(m)|)
            && (m.rest.MCons? ==> next < end && MembersStand(t, next + 1, end, m.rest))
            && MemberStep(t, i, end, name) ==
               if m.key == name then Done(Member(value, value + Stop(m.v, m.after)))
               else Continue(if m.rest.MCons? then next + 1 else next)
  {
    hide At, WellFormed, WellFormedRaw, Print, ValueEnd, StringEnd, SkipSpace, Quoted, Stop;
    HeadMember(t, i, end, m);
  }

  /** One turn of the lookup loop over a well-formed member. */
  lemma HeadMember(t: bytes, i: nat, end: nat, m: Members)
    requires m.MCons? && MembersStand(t, i, end, m)
    ensures var key := i + |m.before|;
            var keyEnd := key + |Quoted(m.key)|;
            var value := i + ValueOffset(m);
            var next := value + |Print(m.v)| + |m.after|;
            && SkipSpace(t, i, end) == key < end && t[key] == QUOTE
            && StringEnd(t, key, end) == Some(keyEnd)
            && t[key + 1..keyEnd - 1] == m.key
            && SkipSpace(t, keyEnd, end) == keyEnd + |m.beforeColon| < end
            && t[keyEnd + |m.beforeColon|] == COLON
            && SkipSpace(t, keyEnd + |m.beforeColon| + 1, end) == value <= end
            && ValueEnd(t, value, end) == Some(value + Stop(m.v, m.after))
            && SkipSpace(t, value + Stop(m.v, m.after), end) == next <= end
            && (m.rest.MCons? ==> next < end && t[next] == COMMA)
            && |PrintMembers(m)| == next - i + |MembersTail(m.rest)|
            && (m.rest.MCons? ==> MembersStand(t, next + 1, end, m.rest))
  {
    hide At, WellFormed, WellFormedRaw, Print, ValueEnd, StringEnd, PrintMembers, SkipSpace, Blank, Stop;
    MemberLayout(t, i, m);
    var key := i + |m.before|;
    var colon := key + |Quoted(m.key)| + |m.beforeColon|;
    var value := i + ValueOffset(m);
    var next := value + |Print(m.v)| + |m.after|;
    QuotedFirst(t, key, m.key);
    AtByte(t, colon, COLON);
    SkipBlank(t, i, end, m.before);
    StringEndQuoted(t, key, end, m.key);
    SkipBlank(t, key + |Quoted(m.key)|, end, m.beforeColon);
    PrintFirst(t, value, m.v);
    SkipBlank(t, colon + 1, end, m.afterColon);
    if m.rest.MCons? {
      AtSplit(t, next, [COMMA], PrintMembers(m.rest));
      AtByte(t, next, COMMA);
    }
    ValueEndExact(t, value, end, m.v, m.after);
  }

  lemma QuotedFirst(t: bytes, i: nat, raw: bytes)
    requires At(t, i, Quoted(raw))
    ensures i < |t| && t[i] == QUOTE
  {
    assert t[i + 0] == Quoted(raw)[0];
  }

  lemma PrintFirst(t: bytes, i: nat, v: Value)
    requires At(t, i, Print(v)) && WellFormed(v)
    ensures i < |t| && |Print(v)| > 0 && t[i] == Print(v)[0] && !IsSpace(t[i]) && !IsDelimiter(t[i])
  {
    hide Print;
    FirstByte(v);
    assert t[i + 0] == Print(v)[0];
  }

  /** Member lookup on a well-formed object finds the value of the first top-level member whose raw
      key is `name`, and nothing when there is none: a key inside a nested value is never taken. */
  lemma FindMemberExact(t: bytes, i: nat, end: nat, name: bytes, pad: bytes, members: Members)
    requires At(t, i, Print(Obj(pad, members))) && WellFormed(Obj(pad, members))
    requires i + |Print(Obj(pad, members))| <= end <= |t|
    ensures FindMember(t, i, end, name) == Located(Locate(members, name, i + 1))
  {
    hide At, PrintMembers, WellFormedMembers, MemberScan;
    var body := ObjectBody(pad, members);
    AtSplit(t, i, [OPEN_BRACE], body + [CLOSE_BRACE]);
    AtSplit(t, i + 1, body, [CLOSE_BRACE]);
    AtByte(t, i, OPEN_BRACE);
    AtByte(t, i + 1 + |body|, CLOSE_BRACE);
    if members.MNil? {
      EmptyObject(t, i + 1, end, name, pad);
    } else {
      MemberScanExact(t, i + 1, end, name, members);
    }
  }

  lemma EmptyObject(t: bytes, i: nat, end: nat, name: bytes, pad: bytes)
    requires At(t, i, pad) && Blank(pad) && i + |pad| < end <= |t| && t[i + |pad|] == CLOSE_BRACE
    ensures MemberScan(t, i, end, name) == NoMember
  {
    SkipBlank(t, i, end, pad);
  }

  /** What `Locate` points at really stands there. */
  lemma {:induction false} LocatedStands(t: bytes, i: nat, end: nat, name: bytes, members: Members)
    requires MembersStand(t, i, end, members)
    ensures match Locate(members, name, i)
            case Missing => true
            case Found(value, v, after) => Stands(t, value, end, v, after)
    decreases members
  {
    hide At, WellFormed, WellFormedRaw, Print, ValueEnd, StringEnd, SkipSpace, Stop;
    if members.MCons? {
      HeadMember(t, i, end, members);
      MemberLayout(t, i, members);
      if members.key != name && members.rest.MCons? {
        LocatedStands(t, i + |PrintMembers(members)| - |PrintMembers(members.rest)|, end, name, members.rest);
      }
    }
  }
}
