/** The menu plugin and the native builder read the same payload text, each in its own way: the plugin
    parses it, undoes escapes and keeps one value for a key; the builder compares raw bytes and takes the
    first member. This module says exactly when the menu the plugin stores is the menu that is shown. */
module MenuAgreement {
  import opened Results
  import opened Bytes
  import opened Words
  import opened JsonGrammar
  import opened MenuBuilder
  import MenuRoundTrip
  import Quoting

  // ----- what a JSON string stands for -----

  function HexDigit(b: byte): nat {
    var digit := Quoting.HexValue(b);
    if digit.Some? then digit.value as nat else 0
  }

  predicate IsUnicodeEscape(raw: bytes) {
    |raw| >= 6 && raw[0] == BACKSLASH && raw[1] == 117
  }

  function CodeUnit(raw: bytes): (r: nat)
    requires IsUnicodeEscape(raw)
    ensures r < 0x1_0000
  {
    HexDigit(raw[2]) * 4096 + HexDigit(raw[3]) * 256 + HexDigit(raw[4]) * 16 + HexDigit(raw[5])
  }

  /** The UTF-8 form of a code point. */
  function Utf8(c: nat): (r: bytes)
    requires c < 0x11_0000
    ensures 1 <= |r| <= 4 && (c < 0x1_0000 ==> |r| <= 3)
  {
    if c < 0x80 then [c as byte]
    else if c < 0x800 then [(0xC0 + c / 64) as byte, (0x80 + c % 64) as byte]
    else if c < 0x1_0000 then [(0xE0 + c / 4096) as byte, (0x80 + c / 64 % 64) as byte, (0x80 + c % 64) as byte]
    else [(0xF0 + c / 262144) as byte, (0x80 + c / 4096 % 64) as byte, (0x80 + c / 64 % 64) as byte,
          (0x80 + c % 64) as byte]
  }

  /** The two halves of a surrogate pair stand next to each other. */
  predicate IsPair(raw: bytes) {
    && |raw| >= 12 && IsUnicodeEscape(raw) && IsUnicodeEscape(raw[6..])
    && 0xD800 <= CodeUnit(raw) < 0xDC00 && 0xDC00 <= CodeUnit(raw[6..]) < 0xE000
  }

  /** RFC 8259, section 7, as UTF-8 text. */
  function Unescaped(raw: bytes): bytes {
    if raw == [] then []
    else if raw[0] != BACKSLASH then [raw[0]] + Unescaped(raw[1..])
    else if IsPair(raw) then
      Utf8(0x1_0000 + (CodeUnit(raw) - 0xD800) * 0x400 + (CodeUnit(raw[6..]) - 0xDC00)) + Unescaped(raw[12..])
    else if IsUnicodeEscape(raw) then Utf8(CodeUnit(raw)) + Unescaped(raw[6..])
    else if |raw| >= 2 && Quoting.Unescape(raw[1]).Some? then [Quoting.Unescape(raw[1]).value] + Unescaped(raw[2..])
    else []
  }

  /** A text stands for itself exactly when it holds no backslash; every escape makes it shorter. */
  lemma {:induction false} UnescapedExact(raw: bytes)
    ensures Unescaped(raw) == raw <==> BACKSLASH !in raw
    ensures |Unescaped(raw)| <= |raw|
    decreases |raw|
  {
    hide CodeUnit, Utf8, Quoting.Unescape;
    if raw != [] {
      if raw[0] != BACKSLASH {
        UnescapedExact(raw[1..]);
        assert raw == [raw[0]] + raw[1..];
        assert Unescaped(raw)[1..] == Unescaped(raw[1..]);
      } else {
        if IsPair(raw) {
          UnescapedExact(raw[12..]);
        } else if IsUnicodeEscape(raw) {
          UnescapedExact(raw[6..]);
        } else if |raw| >= 2 {
          UnescapedExact(raw[2..]);
        }
        assert |Unescaped(raw)| < |raw|;
      }
    }
  }

  /** Four hexadecimal digits, the highest first. */
  lemma CodeUnitExact(raw: bytes, c: nat)
    requires IsUnicodeEscape(raw) && c < 0x1_0000
    requires raw[2] == Quoting.Hex((c / 4096) as byte) && raw[3] == Quoting.Hex((c / 256 % 16) as byte)
    requires raw[4] == Quoting.Hex((c / 16 % 16) as byte) && raw[5] == Quoting.Hex((c % 16) as byte)
    ensures CodeUnit(raw) == c
  {
    var a, b := c / 16, c / 256;
    assert c == a * 16 + c % 16 && a == b * 16 + a % 16 && b == a / 16 && b == c / 4096 * 16 + b % 16;
  }

  /** RFC 3629, section 3: the first byte tells how many follow, with six bits each. */
  function CodePoint(r: bytes): int {
    if |r| == 1 && r[0] < 0x80 then r[0] as int
    else if |r| == 2 && 0xC0 <= r[0] < 0xE0 then SixBits(r[0] as int - 0xC0, r[1])
    else if |r| == 3 && 0xE0 <= r[0] < 0xF0 then SixBits(SixBits(r[0] as int - 0xE0, r[1]), r[2])
    else if |r| == 4 && 0xF0 <= r[0] < 0xF8 then SixBits(SixBits(SixBits(r[0] as int - 0xF0, r[1]), r[2]), r[3])
    else -1
  }

  function SixBits(high: int, b: byte): int {
    if 0x80 <= b < 0xC0 && high >= 0 then high * 64 + (b as int - 0x80) else -1
  }

  lemma Utf8Exact(c: nat)
    requires c < 0x11_0000
    ensures CodePoint(Utf8(c)) == c
  {
    var a, b := c / 64, c / 4096;
    assert c == a * 64 + c % 64 && a == a / 64 * 64 + a % 64;
    assert b == a / 64 && c / 262144 == b / 64 && b == b / 64 * 64 + b % 64;
    LowBits(a, c % 64);
    LowBits(b, a % 64);
    LowBits(b / 64, b % 64);
  }

  lemma LowBits(high: nat, low: nat)
    requires low < 64
    ensures SixBits(high, (0x80 + low) as byte) == high * 64 + low
  {}

  /** A pair of surrogates stands for the code point with ten bits in each. */
  lemma PairExact(raw: bytes, c: nat)
    requires IsPair(raw) && 0x1_0000 <= c < 0x11_0000
    requires CodeUnit(raw) == 0xD800 + (c - 0x1_0000) / 0x400
    requires CodeUnit(raw[6..]) == 0xDC00 + (c - 0x1_0000) % 0x400
    ensures Unescaped(raw) == Utf8(c) + Unescaped(raw[12..])
  {
    hide CodeUnit, Utf8;
  }

  lemma {:induction false} EmptyText(raw: bytes)
    requires WellFormedRaw(raw)
    ensures Unescaped(raw) == [] <==> raw == []
  {
    hide CodeUnit;
    if raw != [] && raw[0] == BACKSLASH && raw[1] != 117 {
      assert Quoting.Unescape(raw[1]).Some?;
    }
  }

  // ----- members: first raw key, last unescaped key -----

  function Weight(v: Value): nat
    decreases v
  {
    match v
    case Arr(_, elems) => 1 + ElemsWeight(elems)
    case Obj(_, members) => 1 + MembersWeight(members)
    case _ => 1
  }

  function ElemsWeight(elems: Elems): nat
    decreases elems
  {
    match elems
    case ENil => 0
    case ECons(_, v, _, rest) => 1 + Weight(v) + ElemsWeight(rest)
  }

  function MembersWeight(members: Members): nat
    decreases members
  {
    match members
    case MNil => 0
    case MCons(_, _, _, _, v, _, rest) => 1 + Weight(v) + MembersWeight(rest)
  }

  /** The parsed object: of several members with one key the last one counts. */
  function Stored(members: Members, name: bytes): (r: Option<Value>)
    ensures r.Some? ==> Weight(r.value) < MembersWeight(members)
  {
    match members
    case MNil => None
    case MCons(_, key, _, _, v, _, rest) =>
      var later := Stored(rest, name);
      if later.Some? then later else if Unescaped(key) == name then Some(v) else None
  }

  function StoredString(members: Members, name: bytes): Option<bytes> {
    match Stored(members, name)
    case Some(Str(raw)) => Some(Unescaped(raw))
    case _ => None
  }

  function StoredBool(members: Members, name: bytes, fallback: bool): bool {
    match Stored(members, name)
    case Some(Scalar(text)) => if text == TRUE then true else if text == FALSE then false else fallback
    case _ => fallback
  }

  /** The position of the member the builder reads. */
  function FirstRaw(members: Members, name: bytes): Option<nat> {
    match members
    case MNil => None
    case MCons(_, key, _, _, _, _, rest) =>
      if key == name then Some(0)
      else match FirstRaw(rest, name) case None => None case Some(k) => Some(k + 1)
  }

  /** The position of the member the plugin reads. */
  function LastUnescaped(members: Members, name: bytes): Option<nat> {
    match members
    case MNil => None
    case MCons(_, key, _, _, _, _, rest) =>
      match LastUnescaped(rest, name)
      case Some(k) => Some(k + 1)
      case None => if Unescaped(key) == name then Some(0) else None
  }

  /** Both read the same member, or neither finds one. */
  predicate SameMember(members: Members, name: bytes) {
    FirstRaw(members, name) == LastUnescaped(members, name)
  }

  lemma {:induction false} SameMemberReads(members: Members, name: bytes)
    requires SameMember(members, name)
    ensures Lookup(members, name) == Stored(members, name)
    decreases members
  {
    hide Unescaped, Weight, MembersWeight;
    if members.MCons? {
      NotStored(members.rest, name);
      if members.key != name && FirstRaw(members.rest, name).Some? {
        SameMemberReads(members.rest, name);
      } else if members.key != name {
        NotFound(members.rest, name);
      }
    }
  }

  lemma {:induction false} NotFound(members: Members, name: bytes)
    ensures FirstRaw(members, name).None? <==> Lookup(members, name).None?
    decreases members
  {
    if members.MCons? {
      NotFound(members.rest, name);
    }
  }

  lemma {:induction false} NotStored(members: Members, name: bytes)
    ensures LastUnescaped(members, name).None? <==> Stored(members, name).None?
    decreases members
  {
    hide Unescaped, Weight, MembersWeight;
    if members.MCons? {
      NotStored(members.rest, name);
    }
  }

  // ----- the condition on keys is exact -----

  /** Two objects differ in their values only. */
  ghost predicate SameKeys(a: Members, b: Members)
    decreases a
  {
    (a.MNil? && b.MNil?) || (a.MCons? && b.MCons? && a.key == b.key && SameKeys(a.rest, b.rest))
  }

  /** The object with every value a number: 1 at position `k`, 0 elsewhere. */
  function Marked(members: Members, k: int): Members
    decreases members
  {
    match members
    case MNil => MNil
    case MCons(b, key, c, d, _, a, rest) =>
      MCons(b, key, c, d, Scalar(if k == 0 then [49] else [48]), a, Marked(rest, k - 1))
  }

  lemma {:induction false} PositionsByKey(a: Members, b: Members, name: bytes)
    requires SameKeys(a, b)
    ensures FirstRaw(a, name) == FirstRaw(b, name) && LastUnescaped(a, name) == LastUnescaped(b, name)
    decreases a
  {
    hide Unescaped;
    if a.MCons? {
      PositionsByKey(a.rest, b.rest, name);
    }
  }

  lemma {:induction false} MarkedReads(members: Members, name: bytes, k: int)
    ensures SameKeys(members, Marked(members, k))
    ensures var r := Lookup(Marked(members, k), name);
            match FirstRaw(members, name)
            case None => r == None
            case Some(i) => r == Some(Scalar(if i == k then [49] else [48]))
    ensures var r := Stored(Marked(members, k), name);
            match LastUnescaped(members, name)
            case None => r == None
            case Some(i) => r == Some(Scalar(if i == k then [49] else [48]))
    decreases members
  {
    hide Unescaped, Weight, MembersWeight;
    if members.MCons? {
      MarkedReads(members.rest, name, k - 1);
    }
  }

  /** Builder and plugin read a key alike in every object with these keys, whatever its values, exactly
      when the first member with the raw key is the last member with the unescaped key. */
  lemma KeysReadAlikeExact(members: Members, name: bytes)
    ensures (forall m: Members :: SameKeys(members, m) ==> Lookup(m, name) == Stored(m, name)) <==>
            SameMember(members, name)
  {
    hide Lookup, Stored, FirstRaw, LastUnescaped, Marked, SameKeys;
    if SameMember(members, name) {
      forall m: Members | SameKeys(members, m) ensures Lookup(m, name) == Stored(m, name) {
        PositionsByKey(members, m, name);
        SameMemberReads(m, name);
      }
    } else {
      var k := if FirstRaw(members, name).Some? then FirstRaw(members, name).value else 0;
      MarkedReads(members, name, k);
      var one: bytes, zero: bytes := [49], [48];
      assert one[0] != zero[0];
      assert Lookup(Marked(members, k), name) != Stored(Marked(members, k), name);
    }
  }

  // ----- the plugin's menu -----

  datatype MenuItem =
    | SeparatorItem
    | ActionItem(id: bytes, title: bytes, enabled: bool)
    | CheckItem(id: bytes, title: bytes, enabled: bool, checked: bool)
    | SubmenuItem(id: bytes, title: bytes, enabled: bool, items: seq<MenuItem>)

  function OrElse(value: Option<bytes>, fallback: bytes): bytes {
    if value.Some? then value.value else fallback
  }

  function DecodeItem(v: Value): Option<MenuItem>
    decreases Weight(v), 0
  {
    if !v.Obj? then None
    else
      var m := v.members;
      var kind := OrElse(StoredString(m, KIND), ACTION);
      var id, title := OrElse(StoredString(m, ID), []), OrElse(StoredString(m, LABEL), []);
      var enabled := StoredBool(m, ENABLED, true);
      if kind == SEPARATOR then Some(SeparatorItem)
      else if kind == ACTION then Some(ActionItem(id, title, enabled))
      else if kind == CHECK then Some(CheckItem(id, title, enabled, StoredBool(m, CHECKED, false)))
      else if kind != SUBMENU then None
      else
        match Stored(m, ITEMS)
        case Some(Arr(_, elems)) =>
          (match DecodeItems(elems)
           case None => None
           case Some(items) => Some(SubmenuItem(id, title, enabled, items)))
        case _ => None
  }

  function DecodeItems(elems: Elems): Option<seq<MenuItem>>
    decreases ElemsWeight(elems), 1
  {
    match elems
    case ENil => Some([])
    case ECons(_, v, _, rest) =>
      match DecodeItem(v)
      case None => None
      case Some(item) =>
        match DecodeItems(rest)
        case None => None
        case Some(items) => Some([item] + items)
  }

  function DecodePayload(v: Value): Option<seq<MenuItem>> {
    match v
    case Arr(_, elems) => DecodeItems(elems)
    case Obj(_, members) =>
      (match Stored(members, ITEMS)
       case Some(Arr(_, elems)) => DecodeItems(elems)
       case _ => None)
    case _ => None
  }

  /** What showing a stored item means. */
  function NodeOf(item: MenuItem): Node
    decreases item, 0
  {
    var click := match item
                 case ActionItem(id, _, _) => if id == [] then None else Some(id)
                 case CheckItem(id, _, _, _) => if id == [] then None else Some(id)
                 case _ => None;
    match item
    case SeparatorItem => Separator
    case ActionItem(_, title, enabled) => Plain(title, enabled, click)
    case CheckItem(_, title, enabled, checked) => Check(title, enabled, checked, click)
    case SubmenuItem(_, title, enabled, items) => Submenu(title, enabled, NodesOf(items))
  }

  function NodesOf(items: seq<MenuItem>): seq<Node>
    decreases items, 1
  {
    if items == [] then [] else [NodeOf(items[0])] + NodesOf(items[1..])
  }

  // ----- where the two readers differ -----

  /** In the objects that are shown, both readers take the same members. */
  predicate SameMembers(v: Value, depth: nat)
    decreases Weight(v), 0
  {
    v.Obj? ==>
      var m := v.members;
      var kind := OrElse(StoredString(m, KIND), ACTION);
      && SameMember(m, KIND)
      && (kind != SEPARATOR ==> SameMember(m, LABEL) && SameMember(m, ENABLED))
      && (kind == ACTION || kind == CHECK ==> SameMember(m, ID))
      && (kind == CHECK ==> SameMember(m, CHECKED))
      && (kind == SUBMENU ==>
            SameMember(m, ITEMS) &&
            match Stored(m, ITEMS)
            case Some(Arr(_, elems)) => SameMembersAll(elems, depth + 1)
            case _ => true)
  }

  predicate SameMembersAll(elems: Elems, depth: nat)
    decreases ElemsWeight(elems), 1
  {
    depth <= MAX_DEPTH && elems.ECons? ==> SameMembers(elems.v, depth) && SameMembersAll(elems.rest, depth)
  }

  /** A string member, if there is one, holds no escape. */
  predicate PlainMember(members: Members, name: bytes) {
    match Stored(members, name)
    case Some(Str(raw)) => BACKSLASH !in raw
    case _ => true
  }

  /** The texts that are shown hold no escape. The kind of an action need not be plain, because the
      builder takes every kind it does not know for an action. */
  predicate NoEscapes(v: Value, depth: nat)
    decreases Weight(v), 0
  {
    v.Obj? ==>
      var m := v.members;
      var kind := OrElse(StoredString(m, KIND), ACTION);
      && (kind != ACTION ==> PlainMember(m, KIND))
      && (kind != SEPARATOR ==> PlainMember(m, LABEL))
      && (kind == ACTION || kind == CHECK ==> PlainMember(m, ID))
      && (kind == SUBMENU ==>
            match Stored(m, ITEMS)
            case Some(Arr(_, elems)) => NoEscapesAll(elems, depth + 1)
            case _ => true)
  }

  predicate NoEscapesAll(elems: Elems, depth: nat)
    decreases ElemsWeight(elems), 1
  {
    depth <= MAX_DEPTH && elems.ECons? ==> NoEscapes(elems.v, depth) && NoEscapesAll(elems.rest, depth)
  }

  /** Every item shown, other than a separator, has a string label. Without one the builder shows nothing. */
  predicate HasLabel(v: Value, depth: nat)
    decreases Weight(v), 0
  {
    v.Obj? ==>
      var m := v.members;
      var kind := OrElse(StoredString(m, KIND), ACTION);
      && (kind != SEPARATOR ==> StoredString(m, LABEL).Some?)
      && (kind == SUBMENU ==>
            match Stored(m, ITEMS)
            case Some(Arr(_, elems)) => HaveLabels(elems, depth + 1)
            case _ => true)
  }

  predicate HaveLabels(elems: Elems, depth: nat)
    decreases ElemsWeight(elems), 1
  {
    depth <= MAX_DEPTH && elems.ECons? ==> HasLabel(elems.v, depth) && HaveLabels(elems.rest, depth)
  }

  lemma StringsAgree(members: Members, name: bytes)
    requires SameMember(members, name)
    ensures TreeString(members, name).Some? <==> StoredString(members, name).Some?
    ensures TreeString(members, name) == StoredString(members, name) <==> PlainMember(members, name)
    ensures TreeString(members, name).Some? ==>
            StoredString(members, name) == Some(Unescaped(TreeString(members, name).value))
  {
    hide Lookup, Stored, Unescaped, SameMember;
    SameMemberReads(members, name);
    if TreeString(members, name).Some? {
      UnescapedExact(TreeString(members, name).value);
    }
  }

  lemma BoolsAgree(members: Members, name: bytes, fallback: bool)
    requires SameMember(members, name)
    ensures TreeBool(members, name, fallback) == StoredBool(members, name, fallback)
  {
    hide Lookup, Stored, SameMember;
    SameMemberReads(members, name);
  }

  lemma {:induction false} StoredWellFormed(members: Members, name: bytes)
    requires WellFormedMembers(members)
    ensures Stored(members, name).Some? ==> WellFormed(Stored(members, name).value)
    decreases members
  {
    hide Unescaped, Weight, MembersWeight, WellFormedRaw, Blank;
    if members.MCons? {
      StoredWellFormed(members.rest, name);
    }
  }

  /** The click of an item: the builder's and the plugin's identifier are the same exactly when it is plain. */
  lemma ClicksAgree(members: Members)
    requires WellFormedMembers(members) && SameMember(members, ID)
    ensures var id := OrElse(StoredString(members, ID), []);
            Click(TreeString(members, ID)) == (if id == [] then None else Some(id)) <==> PlainMember(members, ID)
  {
    hide Lookup, Stored, Unescaped, SameMember, WellFormedRaw, CString;
    StringsAgree(members, ID);
    StoredWellFormed(members, ID);
    SameMemberReads(members, ID);
    if TreeString(members, ID).Some? {
      var raw := TreeString(members, ID).value;
      assert WellFormedRaw(raw);
      RawHoldsNoNul(raw);
      EmptyText(raw);
      UnescapedExact(raw);
      assert CString(raw) == raw;
    }
  }

  /** The builder's reading of the kind, in terms of the plugin's. */
  lemma KindsAgree(members: Members)
    requires SameMember(members, KIND)
    ensures var kind, read := OrElse(StoredString(members, KIND), ACTION), TreeString(members, KIND);
            && (kind == ACTION ==> read != Some(SEPARATOR) && read != Some(CHECK) && read != Some(SUBMENU))
            && (kind != ACTION && PlainMember(members, KIND) ==> read == Some(kind))
            && (kind != ACTION && !PlainMember(members, KIND) ==> read.Some? && BACKSLASH in read.value)
  {
    hide Lookup, Stored, Unescaped, SameMember;
    StringsAgree(members, KIND);
    SameMemberReads(members, KIND);
    UnescapedExact(SEPARATOR);
    UnescapedExact(CHECK);
    UnescapedExact(SUBMENU);
    assert SEPARATOR != ACTION && CHECK != ACTION && SUBMENU != ACTION by { KindsDiffer(); }
    if TreeString(members, KIND).Some? {
      UnescapedExact(TreeString(members, KIND).value);
    }
  }

  lemma KindsDiffer()
    ensures SEPARATOR != ACTION && CHECK != ACTION && SUBMENU != ACTION
    ensures SEPARATOR != CHECK && SEPARATOR != SUBMENU && CHECK != SUBMENU
    ensures BACKSLASH !in SEPARATOR && BACKSLASH !in CHECK && BACKSLASH !in SUBMENU
  {
    assert |SEPARATOR| == 9 && |ACTION| == 6 && |CHECK| == 5 && |SUBMENU| == 7;
  }

  lemma {:induction false} NodesLength(items: seq<MenuItem>, depth: nat)
    requires depth <= MAX_DEPTH
    ensures |MenuRoundTrip.Cut(NodesOf(items), depth)| == |items|
    decreases |items|
  {
    if items != [] {
      NodesLength(items[1..], depth);
      assert NodesOf(items)[1..] == NodesOf(items[1..]);
    }
  }

  lemma {:induction false} ItemAgrees(v: Value, depth: nat)
    requires WellFormed(v) && DecodeItem(v).Some? && SameMembers(v, depth) && depth <= MAX_DEPTH
    ensures |InterpretItem(v, depth)| <= 1
    ensures InterpretItem(v, depth) == [MenuRoundTrip.CutNode(NodeOf(DecodeItem(v).value), depth)] <==>
            NoEscapes(v, depth) && HasLabel(v, depth)
    decreases Weight(v), 0
  {
    hide Lookup, Stored, Unescaped, SameMember, PlainMember, Click, TreeString, TreeBool, StoredString, StoredBool,
         WellFormedMembers, Weight, MembersWeight, ElemsWeight, Interpret, DecodeItems, SameMembersAll,
         NoEscapesAll, HaveLabels;
    var m := v.members;
    assert WellFormedMembers(m) by { ObjectMembers(v); }
    KindsAgree(m);
    KindsDiffer();
    var kind := OrElse(StoredString(m, KIND), ACTION);
    if kind != SEPARATOR {
      StringsAgree(m, LABEL);
      BoolsAgree(m, ENABLED, true);
      if kind == SUBMENU {
        SameMemberReads(m, ITEMS);
        StoredWellFormed(m, ITEMS);
        assert Stored(m, ITEMS).value.Arr?;
        var elems := Stored(m, ITEMS).value.elems;
        Lighter(v, Stored(m, ITEMS).value);
        ElementsWellFormed(Stored(m, ITEMS).value);
        ItemsAgree(elems, depth + 1);
      } else {
        ClicksAgree(m);
        if kind == CHECK {
          BoolsAgree(m, CHECKED, false);
        }
      }
    }
  }

  lemma ObjectMembers(v: Value)
    requires WellFormed(v) && v.Obj?
    ensures WellFormedMembers(v.members)
  {}

  lemma ElementsWellFormed(v: Value)
    requires WellFormed(v) && v.Arr?
    ensures WellFormedElems(v.elems)
  {}

  lemma Lighter(v: Value, child: Value)
    requires v.Obj? && child.Arr? && Weight(child) < MembersWeight(v.members)
    ensures ElemsWeight(child.elems) < Weight(v)
  {}

  /** The shown menu is the stored menu, cut at depth 8, exactly when the shown texts hold no escape and every
      item but a separator has a label. */
  lemma {:induction false} ItemsAgree(elems: Elems, depth: nat)
    requires WellFormedElems(elems) && DecodeItems(elems).Some? && SameMembersAll(elems, depth)
    ensures |Interpret(elems, depth)| <= |DecodeItems(elems).value|
    ensures Interpret(elems, depth) == MenuRoundTrip.Cut(NodesOf(DecodeItems(elems).value), depth) <==>
            NoEscapesAll(elems, depth) && HaveLabels(elems, depth)
    decreases ElemsWeight(elems), 1
  {
    hide WellFormed, InterpretItem, DecodeItem, SameMembers, NoEscapes, HasLabel, NodeOf, MenuRoundTrip.CutNode;
    if depth <= MAX_DEPTH && elems.ECons? {
      ItemAgrees(elems.v, depth);
      ItemsAgree(elems.rest, depth);
      var items := DecodeItems(elems).value;
      var rest := DecodeItems(elems.rest).value;
      assert items == [items[0]] + rest && items[1..] == rest;
      assert NodesOf(items)[1..] == NodesOf(rest);
      NodesLength(rest, depth);
      Joined(InterpretItem(elems.v, depth), Interpret(elems.rest, depth),
             MenuRoundTrip.CutNode(NodeOf(items[0]), depth), MenuRoundTrip.Cut(NodesOf(rest), depth));
    }
  }

  lemma Joined(a: seq<Node>, b: seq<Node>, node: Node, nodes: seq<Node>)
    requires |a| <= 1 && |b| <= |nodes|
    ensures a + b == [node] + nodes <==> a == [node] && b == nodes
  {
    if a + b == [node] + nodes {
      assert |a| == 1 && (a + b)[0] == node;
      assert b == (a + b)[1..] == ([node] + nodes)[1..] == nodes;
    }
  }

  /** A label that is an escaped quote is shown with its backslash; of two labels the first is shown and
      the last is stored. */
  lemma ReadersDiffer()
    ensures var escaped := MCons([], LABEL, [], [], Str([BACKSLASH, QUOTE]), [], MNil);
            TreeString(escaped, LABEL) == Some([BACKSLASH, QUOTE]) && StoredString(escaped, LABEL) == Some([QUOTE])
    ensures var doubled := MCons([], LABEL, [], [], Str([97]), [], MCons([], LABEL, [], [], Str([98]), [], MNil));
            TreeString(doubled, LABEL) == Some([97]) && StoredString(doubled, LABEL) == Some([98])
  {
    hide Unescaped;
    UnescapedExact(LABEL);
    UnescapedExact([97]);
    UnescapedExact([98]);
    EscapedQuote();
    var second := MCons([], LABEL, [], [], Str([98]), [], MNil);
    assert Stored(second, LABEL) == Some(Str([98]));
  }

  lemma EscapedQuote()
    ensures Unescaped([BACKSLASH, QUOTE]) == [QUOTE]
  {
    hide CodeUnit;
    var raw: bytes := [BACKSLASH, QUOTE];
    assert raw[2..] == [] && !IsUnicodeEscape(raw);
    assert Unescaped(raw) == [QUOTE] + Unescaped([]);
  }

  // ----- whole payloads -----

  predicate SameMembersPayload(v: Value) {
    match v
    case Arr(_, elems) => SameMembersAll(elems, 0)
    case Obj(_, members) =>
      SameMember(members, ITEMS) &&
      (match Stored(members, ITEMS)
       case Some(Arr(_, elems)) => SameMembersAll(elems, 0)
       case _ => true)
    case _ => true
  }

  /** The array a payload's items stand in, as the plugin reads it. */
  function PayloadElems(v: Value): Elems {
    match v
    case Arr(_, elems) => elems
    case Obj(_, members) =>
      (match Stored(members, ITEMS)
       case Some(Arr(_, elems)) => elems
       case _ => ENil)
    case _ => ENil
  }

  /** For every payload text the plugin can decode, in any layout, and in which both readers take the same
      members: the native menu bar is the menu the plugin decoded, item by item and cut at depth 8, exactly
      when the texts that are shown hold no escape and every item but a separator has a string label. */
  lemma PayloadAgreesExact(payload: bytes, before: bytes, v: Value, after: bytes)
    requires payload == before + (Print(v) + after) && Blank(before) && WellFormed(v)
    requires DecodePayload(v).Some? && SameMembersPayload(v)
    ensures MenuBar(payload) == Some(Items(MenuRoundTrip.Cut(NodesOf(DecodePayload(v).value), 0))) <==>
            NoEscapesAll(PayloadElems(v), 0) && HaveLabels(PayloadElems(v), 0)
  {
    hide MenuBar, Interpret, DecodeItems, SameMembersAll, NoEscapesAll, HaveLabels, SameMember, Stored, Lookup,
         NodesOf, Print, WellFormedElems, WellFormedMembers;
    MenuRoundTrip.MenuBarExact(payload, before, v, after);
    if v.Arr? {
      ElementsWellFormed(v);
      ItemsAgree(v.elems, 0);
    } else {
      ObjectMembers(v);
      SameMemberReads(v.members, ITEMS);
      StoredWellFormed(v.members, ITEMS);
      ElementsWellFormed(Stored(v.members, ITEMS).value);
      ItemsAgree(Stored(v.members, ITEMS).value.elems, 0);
    }
  }

  // ----- what the plugin accepts -----

  /** The plugin's checks of a decoded menu that the shown menu depends on: items at the top and in every
      submenu, and an identifier and a label for every item but a separator. */
  predicate ValidMenu(items: seq<MenuItem>)
    decreases items, 1
  {
    items != [] && forall i :: 0 <= i < |items| ==> ValidItem(items[i])
  }

  predicate ValidItem(item: MenuItem)
    decreases item, 0
  {
    match item
    case SeparatorItem => true
    case ActionItem(id, title, _) => id != [] && title != []
    case CheckItem(id, title, _, _) => id != [] && title != []
    case SubmenuItem(id, title, _, items) => id != [] && title != [] && ValidMenu(items)
  }

  lemma {:induction false} ValidLabels(elems: Elems, depth: nat)
    requires DecodeItems(elems).Some?
    requires forall i :: 0 <= i < |DecodeItems(elems).value| ==> ValidItem(DecodeItems(elems).value[i])
    ensures HaveLabels(elems, depth)
    decreases ElemsWeight(elems), 1
  {
    hide DecodeItem, HasLabel, ValidItem, Weight;
    if elems.ECons? {
      var items, rest := DecodeItems(elems).value, DecodeItems(elems.rest).value;
      assert items == [DecodeItem(elems.v).value] + rest && items[1..] == rest;
      assert ValidItem(items[0]);
      ValidLabel(elems.v, depth);
      assert forall i :: 0 <= i < |rest| ==> rest[i] == items[i + 1];
      ValidLabels(elems.rest, depth);
    }
  }

  lemma {:induction false} ValidLabel(v: Value, depth: nat)
    requires DecodeItem(v).Some? && ValidItem(DecodeItem(v).value)
    ensures HasLabel(v, depth)
    decreases Weight(v), 0
  {
    hide Stored, StoredString, StoredBool, HaveLabels, Weight, MembersWeight, ElemsWeight, DecodeItems;
    KindsDiffer();
    if OrElse(StoredString(v.members, KIND), ACTION) == SUBMENU {
      var items := Stored(v.members, ITEMS);
      Lighter(v, items.value);
      ValidLabels(items.value.elems, depth + 1);
    }
  }

  /** A payload the plugin accepts has its labels: then the shown menu is the stored menu exactly when the
      texts that are shown hold no escape. */
  lemma AcceptedAgreesExact(payload: bytes, before: bytes, v: Value, after: bytes)
    requires payload == before + (Print(v) + after) && Blank(before) && WellFormed(v)
    requires DecodePayload(v).Some? && ValidMenu(DecodePayload(v).value) && SameMembersPayload(v)
    ensures MenuBar(payload) == Some(Items(MenuRoundTrip.Cut(NodesOf(DecodePayload(v).value), 0))) <==>
            NoEscapesAll(PayloadElems(v), 0)
  {
    hide MenuBar, DecodeItems, SameMembersAll, NoEscapesAll, HaveLabels, SameMember, Stored, NodesOf, Print, WellFormed,
         MenuRoundTrip.Cut, ValidItem;
    PayloadAgreesExact(payload, before, v, after);
    ValidLabels(PayloadElems(v), 0);
  }
}
