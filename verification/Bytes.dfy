/** Bytes, C strings and positions inside a byte range. */
module Bytes {
  newtype byte = x: int | 0 <= x < 256
  type bytes = seq<byte>

  const INT32_MAX: int := 0x7fff_ffff

  const NUL: byte := 0
  const TAB: byte := 9
  const NEWLINE: byte := 10
  const CARRIAGE_RETURN: byte := 13
  const SPACE: byte := 32
  const QUOTE: byte := 34         // "
  const COMMA: byte := 44         // ,
  const MINUS: byte := 45         // -
  const COLON: byte := 58         // :
  const OPEN_BRACKET: byte := 91  // [
  const BACKSLASH: byte := 92     // \
  const CLOSE_BRACKET: byte := 93 // ]
  const OPEN_BRACE: byte := 123   // {
  const CLOSE_BRACE: byte := 125  // }

  /** The bytes of a C string literal without escapes above 127. */
  function Ascii(s: string): (r: bytes)
    ensures |r| == |s|
    ensures forall i :: 0 <= i < |s| ==> r[i] as int == s[i] as int % 128
  {
    seq(|s|, i requires 0 <= i < |s| => (s[i] as int % 128) as byte)
  }

  /** The text `w` stands in `text` from position `i` on. */
  ghost predicate At(text: bytes, i: nat, w: bytes) {
    i + |w| <= |text| && forall j {:trigger w[j]} :: 0 <= j < |w| ==> text[i + j] == w[j]
  }

  lemma AtSplit(text: bytes, i: nat, a: bytes, b: bytes)
    requires At(text, i, a + b)
    ensures At(text, i, a) && At(text, i + |a|, b)
  {
    forall j | 0 <= j < |a| ensures text[i + j] == a[j] {
      assert (a + b)[j] == a[j];
    }
    forall j | 0 <= j < |b| ensures text[i + |a| + j] == b[j] {
      assert (a + b)[|a| + j] == b[j];
    }
  }

  lemma AtJoin(text: bytes, i: nat, a: bytes, b: bytes)
    requires At(text, i, a) && At(text, i + |a|, b)
    ensures At(text, i, a + b)
  {
    forall j | 0 <= j < |a + b| ensures text[i + j] == (a + b)[j] {
      if j >= |a| {
        assert text[i + |a| + (j - |a|)] == b[j - |a|];
      }
    }
  }

  lemma AtSlice(text: bytes, i: nat, w: bytes)
    ensures At(text, i, w) <==> i + |w| <= |text| && text[i..i + |w|] == w
  {
    if i + |w| <= |text| && text[i..i + |w|] == w {
      forall j | 0 <= j < |w| ensures text[i + j] == w[j] {
        assert text[i..i + |w|][j] == text[i + j];
      }
    }
  }

  /** What a C library reads of a buffer holding `b` and a final NUL. */
  function CString(b: bytes): (r: bytes)
    ensures NUL !in r && r <= b
    ensures NUL !in b ==> r == b
    ensures |r| < |b| ==> b[|r|] == NUL
  {
    if b == [] || b[0] == NUL then [] else [b[0]] + CString(b[1..])
  }
}
