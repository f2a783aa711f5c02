/** The quoting and escaping routines that first compute the exact length of their result, allocate
    it, and then fill it; and the JavaScript literal writer, which allocates by a fixed formula. */
module Quoting {
  import opened Results
  import opened Bytes
  import opened JsonGrammar
  import Decimal

  /** Which characters a routine replaces, and what it puts around the text. */
  datatype Scheme = Shell | Desktop | Xml | Json | PowerShell | Script | CSource

  const APOSTROPHE: byte := 39
  const DOLLAR: byte := 36
  const BACKTICK: byte := 96

  predicate DesktopSpecial(b: byte) {
    b == QUOTE || b == BACKSLASH || b == BACKTICK || b == DOLLAR
  }

  /** What the routine writes for one byte. */
  function Escape(scheme: Scheme, b: byte): (r: bytes)
    ensures 1 <= |r| <= 6
  {
    match scheme
    case Shell => if b == APOSTROPHE then [APOSTROPHE, BACKSLASH, APOSTROPHE, APOSTROPHE] else [b]
    case Desktop => if DesktopSpecial(b) then [BACKSLASH, b] else [b]
    case Xml => XmlEntity(b)
    case Json => JsonEscape(b)
    case PowerShell => if b == APOSTROPHE then [APOSTROPHE, APOSTROPHE] else [b]
    case CSource => if b == TAB then [b] else JsonEscape(b)
    case Script =>
      if b < 32 && |JsonEscape(b)| == 1 then [BACKSLASH, 117, 48, 48, Hex(b / 16), Hex(b % 16)]
      else JsonEscape(b)
  }

  /** `&amp;`, `&lt;`, `&gt;`, `&quot;`, `&apos;`, and every other byte as it is. */
  function XmlEntity(b: byte): (r: bytes)
    ensures 1 <= |r| <= 6
  {
    if b == 38 then [38, 97, 109, 112, 59]
    else if b == 60 then [38, 108, 116, 59]
    else if b == 62 then [38, 103, 116, 59]
    else if b == QUOTE then [38, 113, 117, 111, 116, 59]
    else if b == APOSTROPHE then [38, 97, 112, 111, 115, 59]
    else [b]
  }

  function JsonEscape(b: byte): (r: bytes)
    ensures 1 <= |r| <= 2
  {
    if b == QUOTE || b == BACKSLASH then [BACKSLASH, b]
    else if b == NEWLINE then [BACKSLASH, 110]
    else if b == CARRIAGE_RETURN then [BACKSLASH, 114]
    else if b == TAB then [BACKSLASH, 116]
    else [b]
  }

  /** A lower-case hexadecimal digit. */
  function Hex(n: byte): byte
    requires n < 16
  {
    if n < 10 then n + 48 else n + 87
  }

  function Around(scheme: Scheme): (r: bytes)
    ensures |r| <= 1
  {
    match scheme
    case Shell => [APOSTROPHE]
    case Desktop => [QUOTE]
    case Xml => []
    case Json => [QUOTE]
    case PowerShell => [APOSTROPHE]
    case Script => [QUOTE]
    case CSource => []
  }

  function Escaped(scheme: Scheme, text: bytes): (r: bytes)
    ensures |text| <= |r| <= 6 * |text|
  {
    if text == [] then [] else Escape(scheme, text[0]) + Escaped(scheme, text[1..])
  }

  function QuotedText(scheme: Scheme, text: bytes): bytes {
    Around(scheme) + (Escaped(scheme, text) + Around(scheme))
  }

  lemma {:induction false} EscapedAppend(scheme: Scheme, text: bytes, b: byte)
    ensures Escaped(scheme, text + [b]) == Escaped(scheme, text) + Escape(scheme, b)
    decreases |text|
  {
    hide Escape;
    if text == [] {
      assert [b][1..] == [];
      assert Escaped(scheme, [b]) == Escape(scheme, b) + [];
      assert [] + [b] == [b];
    } else {
      EscapedAppend(scheme, text[1..], b);
      assert (text + [b])[1..] == text[1..] + [b];
    }
  }

  lemma EscapedPrefix(scheme: Scheme, text: bytes, i: nat)
    requires i < |text|
    ensures Escaped(scheme, text[..i + 1]) == Escaped(scheme, text[..i]) + Escape(scheme, text[i])
  {
    assert text[..i + 1] == text[..i] + [text[i]];
    EscapedAppend(scheme, text[..i], text[i]);
  }

  lemma {:induction false} PrefixFits(scheme: Scheme, text: bytes, i: nat)
    requires i <= |text|
    ensures |Escaped(scheme, text[..i])| + |text| - i <= |Escaped(scheme, text)|
    decreases |text| - i
  {
    hide Escape, Escaped;
    if i == |text| {
      assert text[..i] == text;
    } else {
      EscapedPrefix(scheme, text, i);
      PrefixFits(scheme, text, i + 1);
    }
  }

  method Put(out: array<byte>, offset: nat, piece: bytes) returns (next: nat)
    requires offset + |piece| <= out.Length
    modifies out
    ensures next == offset + |piece|
    ensures out[..next] == old(out[..offset]) + piece
    ensures out[next..] == old(out[next..])
  {
    var i := 0;
    while i < |piece|
      invariant i <= |piece|
      invariant out[..offset + i] == old(out[..offset]) + piece[..i]
      invariant forall k :: offset + i <= k < out.Length ==> out[k] == old(out[k])
    {
      out[offset + i] := piece[i];
      i := i + 1;
      assert out[..offset + i] == old(out[..offset]) + piece[..i - 1] + [piece[i - 1]];
    }
    next := offset + |piece|;
    assert piece[..i] == piece;
  }

  /** The first pass: the exact length of the result. */
  method Measure(scheme: Scheme, text: bytes) returns (length: nat)
    ensures length == |QuotedText(scheme, text)|
  {
    hide Escape;
    length := |Around(scheme)| + |Around(scheme)|;
    var i := 0;
    while i < |text|
      invariant i <= |text|
      invariant length == |Around(scheme)| + |Around(scheme)| + |Escaped(scheme, text[..i])|
    {
      EscapedPrefix(scheme, text, i);
      length := length + |Escape(scheme, text[i])|;
      i := i + 1;
    }
    assert text[..i] == text;
  }

  /** The second pass fills the buffer to its last byte and never beyond; a NUL ends it. */
  method Fill(scheme: Scheme, text: bytes, out: array<byte>)
    requires out.Length == |QuotedText(scheme, text)| + 1
    modifies out
    ensures out[..] == QuotedText(scheme, text) + [NUL]
  {
    hide Escape, Escaped, Around, QuotedText;
    var around := Around(scheme);
    QuotedIs(scheme, text, around);
    var offset := Put(out, 0, around);
    assert [] + around == around;
    var i := 0;
    while i < |text|
      invariant i <= |text|
      invariant offset == |around| + |Escaped(scheme, text[..i])| <= out.Length
      invariant out[..offset] == around + Escaped(scheme, text[..i])
    {
      EscapedPrefix(scheme, text, i);
      PrefixFits(scheme, text, i + 1);
      assert around + (Escaped(scheme, text[..i]) + Escape(scheme, text[i])) ==
             around + Escaped(scheme, text[..i]) + Escape(scheme, text[i]);
      offset := Put(out, offset, Escape(scheme, text[i]));
      i := i + 1;
    }
    assert text[..i] == text;
    offset := Put(out, offset, around);
    assert out[..offset] == QuotedText(scheme, text);
    offset := Put(out, offset, [NUL]);
    assert out[..offset] == out[..];
  }

  lemma QuotedIs(scheme: Scheme, text: bytes, around: bytes)
    requires around == Around(scheme)
    ensures QuotedText(scheme, text) == around + Escaped(scheme, text) + around
    ensures |QuotedText(scheme, text)| == |around| + |Escaped(scheme, text)| + |around|
  {
    hide Escaped, Around;
  }

  /** Shell, desktop-entry, XML, JSON and PowerShell quoting: measure, allocate, fill. `Script` is written
      by ScriptLiteral below, and `CSource` only by a chain of replacements. */
  method Quote(scheme: Scheme, text: bytes) returns (out: array<byte>)
    ensures fresh(out) && out[..] == QuotedText(scheme, text) + [NUL]
  {
    var length := Measure(scheme, text);
    out := new byte[length + 1];
    Fill(scheme, text, out);
  }

  /** The JavaScript literal writer allocates six bytes for each byte of text and three more, and
      leaves what it does not need. */
  method ScriptLiteral(text: bytes) returns (out: array<byte>, length: nat)
    ensures fresh(out) && out.Length == 6 * |text| + 3 && length < out.Length
    ensures out[..length] == QuotedText(Script, text) && out[length] == NUL
  {
    hide Escape, Escaped;
    out := new byte[6 * |text| + 3];
    var offset := Put(out, 0, [QUOTE]);
    var i := 0;
    while i < |text|
      invariant i <= |text|
      invariant offset == 1 + |Escaped(Script, text[..i])| <= 6 * i + 1
      invariant out[..offset] == [QUOTE] + Escaped(Script, text[..i])
    {
      EscapedPrefix(Script, text, i);
      assert [QUOTE] + (Escaped(Script, text[..i]) + Escape(Script, text[i])) ==
             [QUOTE] + Escaped(Script, text[..i]) + Escape(Script, text[i]);
      offset := Put(out, offset, Escape(Script, text[i]));
      i := i + 1;
    }
    assert text[..i] == text;
    length := Put(out, offset, [QUOTE]);
    assert [QUOTE] + Escaped(Script, text) + [QUOTE] == QuotedText(Script, text);
    out[length] := NUL;
  }

  // ----- the pieces as they read -----

  lemma EntitiesRead()
    ensures XmlEntity(38) == Ascii("&amp;") && XmlEntity(60) == Ascii("&lt;")
    ensures XmlEntity(62) == Ascii("&gt;") && XmlEntity(QUOTE) == Ascii("&quot;")
    ensures XmlEntity(APOSTROPHE) == Ascii("&apos;")
  {}

  lemma QuotesRead()
    ensures Around(Shell) == Around(PowerShell) == Ascii("'") && Around(Xml) == Around(CSource) == []
    ensures Around(Desktop) == Around(Json) == Around(Script) == Ascii("\"")
    ensures Escape(Script, 27) == Ascii("\\u001b")
  {}

  // ----- decoders -----

  /** XML 1.0, section 4.6: character data with the five predefined entities. */
  function XmlDecode(s: bytes): Option<bytes> {
    if s == [] then Some([])
    else if s[0] == 38 then
      if |s| >= 5 && s[..5] == XmlEntity(38) then Prepend(38, XmlDecode(s[5..]))
      else if |s| >= 4 && s[..4] == XmlEntity(60) then Prepend(60, XmlDecode(s[4..]))
      else if |s| >= 4 && s[..4] == XmlEntity(62) then Prepend(62, XmlDecode(s[4..]))
      else if |s| >= 6 && s[..6] == XmlEntity(QUOTE) then Prepend(QUOTE, XmlDecode(s[6..]))
      else if |s| >= 6 && s[..6] == XmlEntity(APOSTROPHE) then Prepend(APOSTROPHE, XmlDecode(s[6..]))
      else None
    else if s[0] == 60 then None
    else Prepend(s[0], XmlDecode(s[1..]))
  }

  function Prepend(b: byte, rest: Option<bytes>): Option<bytes> {
    match rest case None => None case Some(text) => Some([b] + text)
  }

  /** RFC 8259, section 7: the text of a string's contents; a four-digit escape above 7F would need
      several bytes and is not decoded. */
  function JsonDecode(s: bytes): Option<bytes> {
    if s == [] then Some([])
    else if s[0] == QUOTE then None
    else if s[0] != BACKSLASH then Prepend(s[0], JsonDecode(s[1..]))
    else if |s| < 2 then None
    else if s[1] == 117 then
      if |s| >= 6 && s[2] == 48 && s[3] == 48 && HexValue(s[4]).Some? && HexValue(s[4]).value < 8 &&
         HexValue(s[5]).Some?
      then Prepend(HexValue(s[4]).value * 16 + HexValue(s[5]).value, JsonDecode(s[6..]))
      else None
    else
      match Unescape(s[1])
      case None => None
      case Some(b) => Prepend(b, JsonDecode(s[2..]))
  }

  function Unescape(b: byte): Option<byte> {
    if b == QUOTE || b == BACKSLASH || b == 47 then Some(b)
    else if b == 110 then Some(NEWLINE)
    else if b == 114 then Some(CARRIAGE_RETURN)
    else if b == 116 then Some(TAB)
    else if b == 98 then Some(8)
    else if b == 102 then Some(12)
    else None
  }

  /** The contents of a C string literal, ISO/IEC 9899:2018, section 6.4.4.4: simple escapes; octal and
      hexadecimal ones are not decoded. A literal ends with its line. */
  function CDecode(s: bytes): Option<bytes> {
    if s == [] then Some([])
    else if s[0] == QUOTE || s[0] == NEWLINE then None
    else if s[0] != BACKSLASH then Prepend(s[0], CDecode(s[1..]))
    else if |s| < 2 then None
    else
      match SimpleEscape(s[1])
      case None => None
      case Some(b) => Prepend(b, CDecode(s[2..]))
  }

  function SimpleEscape(b: byte): Option<byte> {
    if b == QUOTE || b == BACKSLASH || b == APOSTROPHE || b == 63 then Some(b)
    else if b == 97 then Some(7)
    else if b == 98 then Some(8)
    else if b == 102 then Some(12)
    else if b == 110 then Some(NEWLINE)
    else if b == 114 then Some(CARRIAGE_RETURN)
    else if b == 116 then Some(TAB)
    else if b == 118 then Some(11)
    else None
  }

  function HexValue(b: byte): (r: Option<byte>)
    ensures r.Some? ==> r.value < 16
  {
    if Decimal.IsDigit(b) then Some(b - 48)
    else if 97 <= b <= 102 then Some(b - 87)
    else if 65 <= b <= 70 then Some(b - 55)
    else None
  }

  /** A PowerShell literal string: a doubled apostrophe stands for one. */
  function PowerShellDecode(s: bytes): Option<bytes> {
    if s == [] then Some([])
    else if s[0] != APOSTROPHE then Prepend(s[0], PowerShellDecode(s[1..]))
    else if |s| >= 2 && s[1] == APOSTROPHE then Prepend(APOSTROPHE, PowerShellDecode(s[2..]))
    else None
  }

  lemma {:induction false} XmlRoundTrip(text: bytes)
    ensures XmlDecode(Escaped(Xml, text)) == Some(text)
    decreases |text|
  {
    if text != [] {
      XmlRoundTrip(text[1..]);
      var head, rest := XmlEntity(text[0]), Escaped(Xml, text[1..]);
      assert (head + rest)[..|head|] == head && (head + rest)[|head|..] == rest;
      assert (head + rest)[0] == head[0];
      assert [text[0]] + text[1..] == text;
      XmlStep(head, rest, text[0]);
    }
  }

  lemma XmlStep(head: bytes, rest: bytes, b: byte)
    requires head == XmlEntity(b)
    ensures XmlDecode(head + rest) == Prepend(b, XmlDecode(rest))
  {
    var s := head + rest;
    assert s[..|head|] == head && s[|head|..] == rest;
    assert |head| >= 4 ==> s[1] == head[1] && s[2] == head[2] && s[3] == head[3];
    assert |s| >= 4 ==> s[..4][1] == s[1] && s[..4][2] == s[2];
    assert |s| >= 5 ==> s[..5][1] == s[1] && s[..5][2] == s[2];
    assert |s| >= 6 ==> s[..6][1] == s[1] && s[..6][2] == s[2];
  }

  /** The JSON, JavaScript and C source writers are undone by the decoder, for every byte string. */
  lemma {:induction false} JsonRoundTrip(scheme: Scheme, text: bytes)
    requires scheme == Json || scheme == Script || scheme == CSource
    ensures JsonDecode(Escaped(scheme, text)) == Some(text)
    decreases |text|
  {
    hide Escape;
    if text != [] {
      JsonRoundTrip(scheme, text[1..]);
      JsonStep(scheme, text[0], Escaped(scheme, text[1..]));
      assert [text[0]] + text[1..] == text;
    }
  }

  lemma JsonStep(scheme: Scheme, b: byte, rest: bytes)
    requires scheme == Json || scheme == Script || scheme == CSource
    ensures JsonDecode(Escape(scheme, b) + rest) == Prepend(b, JsonDecode(rest))
  {
    var head := Escape(scheme, b);
    var s := head + rest;
    assert s[|head|..] == rest;
    if |head| == 6 {
      assert s[0] == BACKSLASH && s[1] == 117 && s[2] == 48 && s[3] == 48;
      assert s[4] == Hex(b / 16) && s[5] == Hex(b % 16);
      assert HexValue(s[4]) == Some(b / 16) && HexValue(s[5]) == Some(b % 16);
    }
  }

  /** The C source writer is undone by the C compiler's reading of string literals. */
  lemma {:induction false} CSourceRoundTrip(text: bytes)
    ensures CDecode(Escaped(CSource, text)) == Some(text)
    decreases |text|
  {
    hide Escape;
    if text != [] {
      CSourceRoundTrip(text[1..]);
      CSourceStep(text[0], Escaped(CSource, text[1..]));
      assert [text[0]] + text[1..] == text;
    }
  }

  lemma CSourceStep(b: byte, rest: bytes)
    ensures CDecode(Escape(CSource, b) + rest) == Prepend(b, CDecode(rest))
  {
    var head := Escape(CSource, b);
    assert (head + rest)[|head|..] == rest;
  }

  lemma {:induction false} PowerShellRoundTrip(text: bytes)
    ensures PowerShellDecode(Escaped(PowerShell, text)) == Some(text)
    decreases |text|
  {
    if text != [] {
      PowerShellRoundTrip(text[1..]);
      var head, rest := Escape(PowerShell, text[0]), Escaped(PowerShell, text[1..]);
      assert (head + rest)[|head|..] == rest;
      assert [text[0]] + text[1..] == text;
    }
  }

  /** No control character but the three with a short escape. */
  predicate Printable(text: bytes) {
    forall i :: 0 <= i < |text| ==> text[i] >= 32 || |JsonEscape(text[i])| == 2
  }

  /** The JavaScript writer always gives the contents of a JSON string; the file dialog's JSON writer
      does exactly when the text holds no control character but newline, carriage return and tab. */
  lemma {:induction false} JsonContentsExact(scheme: Scheme, text: bytes)
    requires scheme == Json || scheme == Script
    ensures WellFormedRaw(Escaped(scheme, text)) <==> scheme == Script || Printable(text)
    decreases |text|
  {
    hide Escape;
    if text != [] {
      JsonContentsExact(scheme, text[1..]);
      ContentsStep(scheme, text[0], Escaped(scheme, text[1..]));
      assert Printable(text) <==> Printable([text[0]]) && Printable(text[1..]) by {
        assert text == [text[0]] + text[1..];
      }
    }
  }

  lemma ContentsStep(scheme: Scheme, b: byte, rest: bytes)
    requires scheme == Json || scheme == Script
    ensures WellFormedRaw(Escape(scheme, b) + rest) <==>
            (scheme == Script || b >= 32 || |JsonEscape(b)| == 2) && WellFormedRaw(rest)
  {
    var head := Escape(scheme, b);
    var s := head + rest;
    assert s[|head|..] == rest;
    assert s[0] == head[0];
    if |head| == 6 {
      assert s[1] == 117 && IsHex(s[2]) && IsHex(s[3]) && IsHex(s[4]) && IsHex(s[5]);
    }
  }
}
