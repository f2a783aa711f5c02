/** The file dialog's list of chosen paths: a JSON array written into a buffer that grows. */
module DialogPaths {
  import opened Results
  import opened Bytes
  import opened Quoting
  import opened CommandLine
  import opened JsonGrammar

  /** The paths from position `i` of the text on, each behind a comma unless it is the first of all. */
  function PathsTail(paths: bytes, i: nat, first: bool): bytes
    decreases |paths| - i
  {
    if i >= |paths| then []
    else
      var end := LineEnd(paths, i);
      PathText(paths[i..end], first) + PathsTail(paths, end + 1, first && end == i)
  }

  function PathText(path: bytes, first: bool): bytes {
    if path == [] then [] else (if first then [] else [COMMA]) + QuotedText(Json, path)
  }

  function PathsText(paths: bytes): bytes {
    [OPEN_BRACKET] + PathsTail(paths, 0, true) + [CLOSE_BRACKET]
  }

  /** Room for one more escaped path, its comma, the closing bracket and the terminator. */
  method Grow(out: array<byte>, offset: nat, more: nat) returns (grown: array<byte>)
    requires offset <= out.Length
    ensures grown == out || fresh(grown)
    ensures offset + more + 3 < grown.Length
    ensures grown[..offset] == old(out[..offset])
  {
    grown := out;
    if offset + more + 3 >= out.Length {
      grown := new byte[(offset + more + 3) * 2];
      var i := 0;
      while i < offset
        invariant i <= offset && grown[..i] == out[..i]
      {
        grown[i] := out[i];
        i := i + 1;
      }
    }
  }

  /** Writes one path into the buffer, which may move. */
  method AppendPath(path: bytes, out: array<byte>, offset: nat) returns (grown: array<byte>, next: nat)
    requires path != [] && 1 <= offset && offset + 2 < out.Length
    modifies out
    ensures grown == out || fresh(grown)
    ensures next + 2 < grown.Length && next > offset
    ensures grown[..next] == old(out[..offset]) + PathText(path, offset == 1)
  {
    hide QuotedText;
    var quoted := Quote(Json, path);
    var escaped := quoted[..quoted.Length - 1];
    assert escaped == QuotedText(Json, path);
    ghost var before := out[..offset];
    grown := Grow(out, offset, |escaped|);
    next := offset;
    if offset > 1 {
      next := Put(grown, next, [COMMA]);
      assert grown[..next] == before + [COMMA];
    }
    next := Put(grown, next, escaped);
    assert PathText(path, offset == 1) == (if offset == 1 then [] else [COMMA]) + escaped;
    assert before + [COMMA] + escaped == before + ([COMMA] + escaped);
    assert [] + escaped == escaped;
    QuotedNonEmpty(path);
  }

  lemma QuotedNonEmpty(path: bytes)
    ensures |QuotedText(Json, path)| > 0
  {}

  /** The whole array; every write stays inside the buffer of the moment. */
  method PathsJson(paths: bytes) returns (out: array<byte>, length: nat)
    ensures length < out.Length && out[..length] == PathsText(paths) && out[length] == NUL
  {
    hide LineEnd, PathText, PathsTail;
    out := new byte[|paths| * 2 + 8];
    length := Put(out, 0, [OPEN_BRACKET]);
    var start: nat := 0;
    ghost var text := [OPEN_BRACKET] + PathsTail(paths, 0, true);
    while start < |paths|
      invariant fresh(out) && start <= |paths| + 1 && 1 <= length && length + 2 < out.Length
      invariant text == out[..length] + PathsTail(paths, start, length == 1)
    {
      PathsStep(paths, start, length == 1);
      var end := FindLineEnd(paths, start);
      ghost var before, tail := out[..length], PathsTail(paths, end + 1, length == 1 && end == start);
      ghost var piece := PathText(paths[start..end], length == 1);
      assert text == before + piece + tail;
      if end > start {
        out, length := AppendPath(paths[start..end], out, length);
      } else {
        assert before + piece == before;
      }
      start := end + 1;
    }
    PathsStep(paths, |paths|, length == 1);
    assert text == out[..length] + [];
    length := Put(out, length, [CLOSE_BRACKET]);
    out[length] := NUL;
  }

  lemma PathsStep(paths: bytes, i: nat, first: bool)
    requires i <= |paths|
    ensures PathsTail(paths, i, first) ==
            if i == |paths| then []
            else PathText(paths[i..LineEnd(paths, i)], first) +
                 PathsTail(paths, LineEnd(paths, i) + 1, first && LineEnd(paths, i) == i)
    ensures PathsTail(paths, |paths| + 1, first) == []
    ensures PathText([], first) == []
  {
    hide LineEnd, QuotedText;
  }

  // ----- the text as JSON -----

  function PathElems(parts: seq<bytes>): Elems {
    if parts == [] then ENil else ECons([], Str(Escaped(Json, parts[0])), [], PathElems(parts[1..]))
  }

  lemma {:induction false} TailIsElems(paths: bytes, i: nat, first: bool)
    ensures PathsTail(paths, i, first) ==
            (if first then PrintElems(PathElems(Parts(paths, i))) else ElemsTail(PathElems(Parts(paths, i))))
    decreases |paths| - i
  {
    hide LineEnd, Escaped, PathsTail, Parts, PathElems, PrintElems, QuotedText, Quoted, ElemsTail, PathText;
    if i >= |paths| {
      NothingLeft(paths, i, first);
    } else {
      LineStep(paths, i, first);
      var end := LineEnd(paths, i);
      TailIsElems(paths, end + 1, first && end == i);
      if end > i {
        ElemsOf(paths[i..end], Parts(paths, end + 1));
        OnePath(paths[i..end], PathElems(Parts(paths, end + 1)), first);
      }
    }
  }

  lemma LineStep(paths: bytes, i: nat, first: bool)
    requires i < |paths|
    ensures var end := LineEnd(paths, i);
            if end == i then PathsTail(paths, i, first) == PathsTail(paths, i + 1, first) &&
               Parts(paths, i) == Parts(paths, i + 1)
            else PathsTail(paths, i, first) == PathText(paths[i..end], first) + PathsTail(paths, end + 1, false)
                 && Parts(paths, i) == [paths[i..end]] + Parts(paths, end + 1)
  {
    hide LineEnd, QuotedText;
    var end := LineEnd(paths, i);
    if end == i {
      assert [] + PathsTail(paths, i + 1, first) == PathsTail(paths, i + 1, first);
      assert [] + Parts(paths, i + 1) == Parts(paths, i + 1);
    }
  }

  lemma NothingLeft(paths: bytes, i: nat, first: bool)
    requires i >= |paths|
    ensures PathsTail(paths, i, first) == [] && Parts(paths, i) == [] && PathElems([]) == ENil && PrintElems(ENil) == []
    ensures ElemsTail(ENil) == []
  {}

  lemma OnePath(part: bytes, rest: Elems, first: bool)
    requires part != []
    ensures PathText(part, first) + ElemsTail(rest) ==
            (if first then [] else [COMMA]) + ([] + (Quoted(Escaped(Json, part)) + ([] + ElemsTail(rest))))
  {
    hide Escaped, ElemsTail;
    var elem, tail := Quoted(Escaped(Json, part)), ElemsTail(rest);
    assert QuotedText(Json, part) == elem;
  }

  lemma ElemsOf(part: bytes, rest: seq<bytes>)
    ensures PathElems([part] + rest) == ECons([], Str(Escaped(Json, part)), [], PathElems(rest))
    ensures PrintElems(PathElems([part] + rest)) ==
            [] + (Quoted(Escaped(Json, part)) + ([] + ElemsTail(PathElems(rest))))
    ensures ElemsTail(PathElems([part] + rest)) == [COMMA] + PrintElems(PathElems([part] + rest))
  {
    hide Escaped;
    assert ([part] + rest)[1..] == rest;
  }

  /** The paths as decoded elements of a JSON array. */
  ghost predicate DecodesTo(elems: Elems, parts: seq<bytes>) {
    match elems
    case ENil => parts == []
    case ECons(_, v, _, rest) =>
      parts != [] && v.Str? && JsonDecode(v.raw) == Some(parts[0]) && DecodesTo(rest, parts[1..])
  }

  lemma {:induction false} ElemsDecode(parts: seq<bytes>)
    ensures DecodesTo(PathElems(parts), parts)
    ensures WellFormedElems(PathElems(parts)) <==> forall i :: 0 <= i < |parts| ==> Printable(parts[i])
    decreases |parts|
  {
    hide Escaped, JsonDecode, WellFormedRaw, Printable;
    if parts != [] {
      JsonRoundTrip(Json, parts[0]);
      JsonContentsExact(Json, parts[0]);
      ElemsDecode(parts[1..]);
      assert parts == [parts[0]] + parts[1..];
    }
  }

  /** The text is a JSON array whose elements decode to exactly the non-empty lines; it is valid JSON
      exactly when no path holds a control character other than carriage return and tab. */
  lemma PathsRoundTrip(paths: bytes)
    ensures var v := Arr([], PathElems(Parts(paths, 0)));
            && PathsText(paths) == Print(v)
            && DecodesTo(v.elems, Parts(paths, 0))
            && (WellFormed(v) <==> forall i :: 0 <= i < |Parts(paths, 0)| ==> Printable(Parts(paths, 0)[i]))
  {
    hide PathsTail, PrintElems, DecodesTo, Parts, PathElems, Printable;
    TailIsElems(paths, 0, true);
    ElemsDecode(Parts(paths, 0));
    var elems := PathElems(Parts(paths, 0));
    assert [OPEN_BRACKET] + PrintElems(elems) + [CLOSE_BRACKET] == [OPEN_BRACKET] +
           (PrintElems(elems) + [CLOSE_BRACKET]);
    NoElems(elems);
  }

  lemma NoElems(elems: Elems)
    ensures ArrayBody([], elems) == PrintElems(elems)
  {}
}
