/** The argument packet of a service: lengths and texts one after the other. */
module CommandPacket {
  import opened Results
  import opened Bytes
  import opened PacketCodec
  import Decimal

  /** The MoonBit encoder. */
  function EncodeCommand(argv: seq<bytes>): bytes {
    EncodeFields(argv)
  }

  function DigitsEnd(p: bytes, i: nat): (r: nat)
    requires i <= |p|
    ensures i <= r <= |p|
    ensures forall j :: i <= j < r ==> Decimal.IsDigit(p[j])
    ensures r < |p| ==> !Decimal.IsDigit(p[r])
    decreases |p| - i
  {
    if i < |p| && Decimal.IsDigit(p[i]) then DigitsEnd(p, i + 1) else i
  }

  /** The arguments up to the end of the packet; unlike a record field, a length needs a digit. */
  function ReadArguments(p: bytes, i: nat): Option<seq<bytes>>
    requires i <= |p|
    decreases |p| - i
  {
    if i == |p| then Some([])
    else
      var digits := DigitsEnd(p, i);
      if digits == i || digits == |p| || p[digits] != NEWLINE then None
      else
        var length := Decimal.Value(p[i..digits]);
        var value := digits + 1;
        if value + length > |p| then None
        else
          match ReadArguments(p, value + length)
          case None => None
          case Some(rest) => Some([CString(p[value..value + length])] + rest)
  }

  /** A command needs a program name. */
  function ParseCommand(p: bytes): Option<seq<bytes>> {
    match ReadArguments(p, 0)
    case None => None
    case Some(argv) => if argv == [] || argv[0] == [] then None else Some(argv)
  }

  /** The number in the digits at `i`, and where they end. */
  method ReadDigits(p: bytes, i: nat) returns (length: nat, end: nat)
    requires i <= |p|
    ensures end == DigitsEnd(p, i) && length == Decimal.Value(p[i..end])
  {
    length, end := 0, i;
    while end < |p| && Decimal.IsDigit(p[end])
      invariant i <= end <= |p|
      invariant Decimal.AllDigits(p[i..end]) && length == Decimal.Value(p[i..end])
      invariant DigitsEnd(p, i) == DigitsEnd(p, end)
    {
      assert p[i..end + 1][..end - i] == p[i..end];
      length := length * 10 + (p[end] - Decimal.ZERO) as nat;
      end := end + 1;
    }
  }

  method ParseCommandPacket(p: bytes) returns (r: Option<seq<bytes>>)
    ensures r == ParseCommand(p)
  {
    hide CString, DigitsEnd, Decimal.Value, ReadArguments;
    var cursor: nat := 0;
    var argv: seq<bytes> := [];
    ghost var all := ReadArguments(p, 0);
    assert all.Some? ==> [] + all.value == all.value;
    while cursor < |p|
      invariant cursor <= |p|
      invariant all == Prefixed(argv, ReadArguments(p, cursor))
      decreases |p| - cursor
    {
      var length: nat, digits: nat := ReadDigits(p, cursor);
      BadArgument(p, cursor);
      if digits == cursor || digits == |p| || p[digits] != NEWLINE {
        return None;
      }
      OneArgument(p, cursor, digits, argv);
      cursor := digits + 1;
      if cursor + length > |p| {
        return None;
      }
      argv := argv + [CString(p[cursor..cursor + length])];
      cursor := cursor + length;
    }
    assert argv + [] == argv && ReadArguments(p, |p|) == Some([]) by { NoArguments(p); }
    if argv == [] || argv[0] == [] {
      return None;
    }
    return Some(argv);
  }

  ghost function Prefixed(argv: seq<bytes>, rest: Option<seq<bytes>>): Option<seq<bytes>> {
    match rest case None => None case Some(more) => Some(argv + more)
  }

  /** One unfolding of the argument reader. */
  lemma ArgumentStep(p: bytes, i: nat, digits: nat)
    requires i < digits < |p| && DigitsEnd(p, i) == digits && p[digits] == NEWLINE
    ensures Decimal.AllDigits(p[i..digits])
    ensures var value := digits + 1;
            var next := value + Decimal.Value(p[i..digits]);
            ReadArguments(p, i) ==
            if next > |p| then None else Prefixed([CString(p[value..next])], ReadArguments(p, next))
  {
    hide CString, Decimal.Value;
  }

  /** The same behind the arguments read so far. */
  lemma OneArgument(p: bytes, i: nat, digits: nat, argv: seq<bytes>)
    requires i < digits < |p| && DigitsEnd(p, i) == digits && p[digits] == NEWLINE
    ensures Decimal.AllDigits(p[i..digits])
    ensures var value := digits + 1;
            var next := value + Decimal.Value(p[i..digits]);
            Prefixed(argv, ReadArguments(p, i)) ==
            if next > |p| then None else Prefixed(argv + [CString(p[value..next])], ReadArguments(p, next))
  {
    hide CString, Decimal.Value, ReadArguments, DigitsEnd;
    ArgumentStep(p, i, digits);
    var next := digits + 1 + Decimal.Value(p[i..digits]);
    if next <= |p| {
      var rest := ReadArguments(p, next);
      var head := [CString(p[digits + 1..next])];
      assert rest.Some? ==> argv + (head + rest.value) == argv + head + rest.value;
    }
  }

  function CStrings(argv: seq<bytes>): (r: seq<bytes>)
    ensures |r| == |argv|
    ensures forall i :: 0 <= i < |argv| ==> r[i] == CString(argv[i])
  {
    seq(|argv|, i requires 0 <= i < |argv| => CString(argv[i]))
  }

  lemma ReadsDigits(p: bytes, i: nat, n: nat)
    requires At(p, i, LengthLine(n))
    ensures var end := i + |LengthLine(n)| - 1;
            i < end && DigitsEnd(p, i) == end && p[end] == NEWLINE && p[i..end] == Decimal.Print(n)
  {
    var ds := Decimal.Print(n);
    AtSplit(p, i, ds, [NEWLINE]);
    AtSlice(p, i, ds);
    assert p[i + |ds| + 0] == [NEWLINE][0];
    forall j | i <= j < i + |ds| ensures Decimal.IsDigit(p[j]) {
      assert p[i + (j - i)] == ds[j - i];
    }
    DigitsEndAt(p, i, i + |ds|);
  }

  lemma {:induction false} DigitsEndAt(p: bytes, i: nat, end: nat)
    requires i <= end < |p| && !Decimal.IsDigit(p[end])
    requires forall j :: i <= j < end ==> Decimal.IsDigit(p[j])
    ensures DigitsEnd(p, i) == end
    decreases end - i
  {
    if i < end {
      DigitsEndAt(p, i + 1, end);
    }
  }

  lemma {:induction false} ReadsArguments(p: bytes, i: nat, argv: seq<bytes>)
    requires At(p, i, EncodeFields(argv)) && i + |EncodeFields(argv)| == |p|
    ensures ReadArguments(p, i) == Some(CStrings(argv))
    decreases |argv|
  {
    hide DigitsEnd, EncodeField, EncodeFields, LengthLine, At, CStrings, ReadArguments, CString, Decimal.Value,
         Decimal.Print;
    FieldsStep(argv);
    if argv == [] {
      NoArguments(p);
    } else {
      var head := argv[0];
      AtSplit(p, i, EncodeField(head), EncodeFields(argv[1..]));
      FieldText(head);
      AtSplit(p, i, LengthLine(|head|), head);
      ReadsDigits(p, i, |head|);
      Decimal.ValuePrint(|head|);
      AtSlice(p, i + |LengthLine(|head|)|, head);
      ReadsArguments(p, i + |EncodeField(head)|, argv[1..]);
      OneArgument(p, i, i + |LengthLine(|head|)| - 1, []);
      FirstArgument(p, i, argv);
    }
  }

  lemma FieldsStep(argv: seq<bytes>)
    ensures EncodeFields(argv) == if argv == [] then [] else EncodeField(argv[0]) + EncodeFields(argv[1..])
  {}

  lemma NoArguments(p: bytes)
    ensures ReadArguments(p, |p|) == Some([]) && CStrings([]) == []
  {}

  lemma BadArgument(p: bytes, i: nat)
    requires i < |p|
    ensures var digits := DigitsEnd(p, i);
            digits == i || digits == |p| || p[digits] != NEWLINE ==> ReadArguments(p, i) == None
  {
    hide CString, DigitsEnd, Decimal.Value;
  }

  lemma FirstArgument(p: bytes, i: nat, argv: seq<bytes>)
    requires argv != [] && i <= |p|
    requires Prefixed([], ReadArguments(p, i)) == Prefixed([] + [CString(argv[0])], Some(CStrings(argv[1..])))
    ensures ReadArguments(p, i) == Some(CStrings(argv))
  {
    hide ReadArguments, CString;
    var one, rest := [CString(argv[0])], CStrings(argv[1..]);
    assert [] + one == one;
    assert CStrings(argv) == one + rest by { FirstCString(argv); }
    PrefixedNothing(ReadArguments(p, i));
  }

  lemma FirstCString(argv: seq<bytes>)
    requires argv != []
    ensures CStrings(argv) == [CString(argv[0])] + CStrings(argv[1..])
  {
    hide CString, CStrings;
  }

  lemma PrefixedNothing(rest: Option<seq<bytes>>)
    ensures Prefixed([], rest) == rest
  {
    assert rest.Some? ==> [] + rest.value == rest.value;
  }

  lemma FieldText(value: bytes)
    ensures EncodeField(value) == LengthLine(|value|) + value
  {}

  /** A command comes back, each argument as its C string, exactly when it has a program name. */
  lemma CommandRoundTrip(argv: seq<bytes>)
    ensures ParseCommand(EncodeCommand(argv)) ==
            if argv != [] && CString(argv[0]) != [] then Some(CStrings(argv)) else None
  {
    hide ReadArguments, EncodeFields;
    var p := EncodeCommand(argv);
    AtSlice(p, 0, p);
    ReadsArguments(p, 0, argv);
  }
}
