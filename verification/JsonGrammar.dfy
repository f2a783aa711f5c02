/** JSON texts by the grammar of RFC 8259, sections 2 to 7: values as trees that keep every
    insignificant blank, and the text each tree stands for. */
module JsonGrammar {
  import opened Results
  import opened Bytes
  import opened Words
  import Decimal

  /** `Scalar` is a number or one of the three literal names; `Str` holds what stands between the
      quotes. `pad` is the blank space of an empty array or object. */
  datatype Value =
    | Scalar(text: bytes)
    | Str(raw: bytes)
    | Arr(pad: bytes, elems: Elems)
    | Obj(pad: bytes, members: Members)

  datatype Elems = ENil | ECons(before: bytes, v: Value, after: bytes, rest: Elems)

  datatype Members =
    | MNil
    | MCons(before: bytes, key: bytes, beforeColon: bytes, afterColon: bytes, v: Value, after: bytes, rest: Members)

  // ----- printing -----

  function Quoted(raw: bytes): bytes {
    [QUOTE] + raw + [QUOTE]
  }

  function Print(v: Value): (text: bytes)
    ensures |text| > 0 || v.Scalar?
    decreases v, 0
  {
    match v
    case Scalar(text) => text
    case Str(raw) => Quoted(raw)
    case Arr(pad, elems) => [OPEN_BRACKET] + (ArrayBody(pad, elems) + [CLOSE_BRACKET])
    case Obj(pad, members) => [OPEN_BRACE] + (ObjectBody(pad, members) + [CLOSE_BRACE])
  }

  function ArrayBody(pad: bytes, elems: Elems): bytes
    decreases elems, 1
  {
    if elems.ENil? then pad else PrintElems(elems)
  }

  function ObjectBody(pad: bytes, members: Members): bytes
    decreases members, 1
  {
    if members.MNil? then pad else PrintMembers(members)
  }

  function PrintElems(elems: Elems): bytes
    decreases elems, 0
  {
    match elems
    case ENil => []
    case ECons(before, v, after, rest) => before + (Print(v) + (after + ElemsTail(rest)))
  }

  function ElemsTail(rest: Elems): bytes
    decreases rest, 1
  {
    if rest.ENil? then [] else [COMMA] + PrintElems(rest)
  }

  function PrintMembers(members: Members): bytes
    decreases members, 0
  {
    match members
    case MNil => []
    case MCons(before, key, beforeColon, afterColon, v, after, rest) =>
      before + (Quoted(key) + (beforeColon + ([COLON] + (afterColon + (Print(v) + (after + MembersTail(rest)))))))
  }

  function MembersTail(rest: Members): bytes
    decreases rest, 1
  {
    if rest.MNil? then [] else [COMMA] + PrintMembers(rest)
  }

  // ----- well-formedness -----

  /** Section 2: space, tab, line feed, carriage return. */
  predicate IsBlank(b: byte) {
    b == SPACE || b == TAB || b == NEWLINE || b == CARRIAGE_RETURN
  }

  predicate Blank(w: bytes) {
    forall j :: 0 <= j < |w| ==> IsBlank(w[j])
  }

  predicate IsHex(b: byte) {
    Decimal.IsDigit(b) || 65 <= b <= 70 || 97 <= b <= 102
  }

  /** Section 7, between the quotes: unescaped characters, two-character escapes, \uXXXX. */
  predicate WellFormedRaw(raw: bytes) {
    if raw == [] then true
    else if raw[0] != BACKSLASH then raw[0] != QUOTE && raw[0] >= 32 && WellFormedRaw(raw[1..])
    else if |raw| < 2 then false
    else if raw[1] == 117 then |raw| >= 6 && (forall j :: 2 <= j < 6 ==> IsHex(raw[j])) && WellFormedRaw(raw[6..])
    else IsEscape(raw[1]) && WellFormedRaw(raw[2..])
  }

  /** The letters after a backslash: " \ / b f n r t */
  predicate IsEscape(b: byte) {
    b == QUOTE || b == BACKSLASH || b == 47 || b == 98 || b == 102 || b == 110 || b == 114 || b == 116
  }

  function SkipDigits(s: bytes, i: nat): (r: nat)
    requires i <= |s|
    ensures i <= r <= |s|
    ensures forall j :: i <= j < r ==> Decimal.IsDigit(s[j])
    decreases |s| - i
  {
    if i < |s| && Decimal.IsDigit(s[i]) then SkipDigits(s, i + 1) else i
  }

  /** Section 6: optional minus, integer part, optional fraction, optional exponent. */
  predicate IsNumber(s: bytes) {
    var first := if |s| > 0 && s[0] == MINUS then 1 else 0;
    && first < |s|
    && Decimal.IsDigit(s[first])
    && var intEnd := if s[first] == Decimal.ZERO then first + 1 else SkipDigits(s, first);
    && var fracEnd := FractionEnd(s, intEnd);
    && fracEnd.Some?
    && ExponentEnd(s, fracEnd.value) == Some(|s|)
  }

  function FractionEnd(s: bytes, i: nat): (r: Option<nat>)
    requires i <= |s|
    ensures r.Some? ==> i <= r.value <= |s| && forall j :: i <= j < r.value ==> IsScalarByte(s[j])
  {
    if i == |s| || s[i] != 46 then Some(i)
    else if i + 1 < |s| && Decimal.IsDigit(s[i + 1]) then Some(SkipDigits(s, i + 1))
    else None
  }

  function ExponentEnd(s: bytes, i: nat): (r: Option<nat>)
    requires i <= |s|
    ensures r.Some? ==> i <= r.value <= |s| && forall j :: i <= j < r.value ==> IsScalarByte(s[j])
  {
    if i == |s| || (s[i] != 101 && s[i] != 69) then Some(i)
    else
      var d := if i + 1 < |s| && (s[i + 1] == 43 || s[i + 1] == MINUS) then i + 2 else i + 1;
      if d < |s| && Decimal.IsDigit(s[d]) then Some(SkipDigits(s, d)) else None
  }

  predicate IsScalar(text: bytes) {
    text == TRUE || text == FALSE || text == NULL_WORD || IsNumber(text)
  }

  /** Letters, digits and the signs of a number: no delimiter, quote, bracket or blank. */
  predicate IsScalarByte(b: byte) {
    Decimal.IsDigit(b) || 97 <= b <= 122 || b == 69 || b == 43 || b == MINUS || b == 46
  }

  lemma ScalarBytes(text: bytes)
    requires IsScalar(text)
    ensures |text| > 0 && forall j :: 0 <= j < |text| ==> IsScalarByte(text[j])
  {}

  predicate WellFormed(v: Value) {
    match v
    case Scalar(text) => IsScalar(text)
    case Str(raw) => WellFormedRaw(raw)
    case Arr(pad, elems) => Blank(pad) && WellFormedElems(elems)
    case Obj(pad, members) => Blank(pad) && WellFormedMembers(members)
  }

  predicate WellFormedElems(elems: Elems) {
    match elems
    case ENil => true
    case ECons(before, v, after, rest) => Blank(before) && WellFormed(v) && Blank(after) && WellFormedElems(rest)
  }

  predicate WellFormedMembers(members: Members) {
    match members
    case MNil => true
    case MCons(before, key, beforeColon, afterColon, v, after, rest) =>
      && Blank(before) && WellFormedRaw(key) && Blank(beforeColon) && Blank(afterColon)
      && WellFormed(v) && Blank(after) && WellFormedMembers(rest)
  }
}
