/** The recursive menu builder of the Linux backend: JSON bytes to a menu tree. */
module MenuBuilder {
  import opened Results
  import opened Bytes
  import opened Words
  import opened JsonGrammar
  import opened JsonScanner

  /** What the toolkit is asked to append. `click` is the identifier a click reports; `Bare` is a
      submenu item that has no array of items and so gets no submenu. */
  datatype Node =
    | Separator
    | Plain(title: bytes, enabled: bool, click: Option<bytes>)
    | Check(title: bytes, enabled: bool, active: bool, click: Option<bytes>)
    | Submenu(title: bytes, enabled: bool, children: seq<Node>)
    | Bare(title: bytes, enabled: bool)

  const MAX_DEPTH: nat := 8

  /** `Hang` stands for a loop that goes round forever without changing its state. */
  datatype Outcome = Items(items: seq<Node>) | Hang

  // ----- members of an item -----

  function StringMember(t: bytes, i: nat, end: nat, name: bytes): Option<bytes>
    requires i <= end <= |t|
  {
    match FindMember(t, i, end, name)
    case NoMember => None
    case Member(value, stop) =>
      var start := SkipSpace(t, value, stop);
      match StringEnd(t, start, stop)
      case None => None
      case Some(after) => Some(t[start + 1..after - 1])
  }

  predicate HasWord(t: bytes, i: nat, end: nat, word: bytes)
    requires i <= end <= |t|
  {
    i + |word| <= end && t[i..i + |word|] == word
  }

  function BoolMember(t: bytes, i: nat, end: nat, name: bytes, fallback: bool): bool
    requires i <= end <= |t|
  {
    match FindMember(t, i, end, name)
    case NoMember => fallback
    case Member(value, stop) =>
      var start := SkipSpace(t, value, stop);
      if HasWord(t, start, stop, TRUE) then true
      else if HasWord(t, start, stop, FALSE) then false
      else fallback
  }

  /** Items with an empty identifier report no click. */
  function Click(id: Option<bytes>): Option<bytes> {
    match id
    case None => None
    case Some(text) => if text == [] then None else Some(CString(text))
  }

  // ----- the builder -----

  function BuildArray(t: bytes, i: nat, end: nat, depth: nat): Outcome
    requires i <= end <= |t|
    decreases end - i, 4
  {
    if depth > MAX_DEPTH then Items([])
    else
      var start := SkipSpace(t, i, end);
      if start == end || t[start] != OPEN_BRACKET then Items([])
      else BuildLoop(t, start + 1, end, depth)
  }

  datatype Turn = Exit | Turn(next: nat, items: seq<Node>) | Stuck

  /** The loop runs `LoopBody` until it exits. A turn that leaves the cursor where it is appends
      nothing and is repeated forever. */
  function BuildLoop(t: bytes, i: nat, end: nat, depth: nat): Outcome
    requires i <= end <= |t|
    decreases end - i, 3
  {
    match LoopBody(t, i, end, depth)
    case Exit => Items([])
    case Stuck => Hang
    case Turn(next, items) =>
      if next == i then Hang
      else
        match BuildLoop(t, next, end, depth)
        case Hang => Hang
        case Items(rest) => Items(items + rest)
  }

  function LoopBody(t: bytes, i: nat, end: nat, depth: nat): (r: Turn)
    requires i <= end <= |t|
    ensures r.Turn? ==> i <= r.next <= end
    decreases end - i, 2
  {
    var cursor := SkipSpace(t, i, end);
    if cursor == end || t[cursor] == CLOSE_BRACKET then Exit
    else if t[cursor] == COMMA then Turn(cursor + 1, [])
    else
      match ValueEnd(t, cursor, end)
      case None => Exit
      case Some(itemEnd) =>
        match BuildItem(t, cursor, itemEnd, depth)
        case Hang => Stuck
        case Items(items) => Turn(AfterComma(t, SkipSpace(t, itemEnd, end), end), items)
  }

  /** The item for the value in `t[i..end]`, if it gives one. */
  function BuildItem(t: bytes, i: nat, end: nat, depth: nat): Outcome
    requires i <= end <= |t|
    decreases end - i, 1
  {
    if i == end || t[i] != OPEN_BRACE then Items([])
    else
      var kind := StringMember(t, i, end, KIND);
      if kind == Some(SEPARATOR) then Items([Separator])
      else
        match StringMember(t, i, end, LABEL)
        case None => Items([])
        case Some(text) =>
          var title := CString(text);
          var enabled := BoolMember(t, i, end, ENABLED, true);
          if kind == Some(SUBMENU) then
            match FindMember(t, i, end, ITEMS)
            case Member(children, stop) =>
              if children < stop && t[children] == OPEN_BRACKET then
                match BuildArray(t, children, stop, depth + 1)
                case Hang => Hang
                case Items(items) => Items([Submenu(title, enabled, items)])
              else Items([Bare(title, enabled)])
            case NoMember => Items([Bare(title, enabled)])
          else
            var click := Click(StringMember(t, i, end, ID));
            if kind == Some(CHECK)
            then Items([Check(title, enabled, BoolMember(t, i, end, CHECKED, false), click)])
            else Items([Plain(title, enabled, click)])
  }

  /** Where the items of a menu payload stand: it is an array of items, or an object with an `items`
      array. */
  function ItemsRange(payload: bytes): (r: Member)
    ensures r.Member? ==> r.value < r.stop <= |payload| && payload[r.value] == OPEN_BRACKET
  {
    var root := SkipSpace(payload, 0, |payload|);
    var range := if root < |payload| && payload[root] == OPEN_BRACE
                 then FindMember(payload, root, |payload|, ITEMS) else NoMember;
    var items := if range.Member? then range else Member(root, |payload|);
    if items.value == items.stop || payload[items.value] != OPEN_BRACKET then NoMember else items
  }

  function MenuBar(payload: bytes): Option<Outcome> {
    match ItemsRange(payload)
    case NoMember => None
    case Member(items, end) => Some(BuildArray(payload, items, end, 0))
  }

  // ----- the loop that never ends -----

  /** A turn repeats its own state exactly when a closing brace stands where an item should start. */
  lemma StuckTurnExact(t: bytes, i: nat, end: nat, depth: nat)
    requires i <= end <= |t|
    ensures LoopBody(t, i, end, depth) == Turn(i, []) <==> i < end && t[i] == CLOSE_BRACE
    ensures LoopBody(t, i, end, depth).Turn? && LoopBody(t, i, end, depth).next == i ==>
            LoopBody(t, i, end, depth).items == []
  {
    hide StringMember, BoolMember, FindMember, ContainerScan, StringEnd, BuildArray;
    if i < end && t[i] == CLOSE_BRACE {
      assert SkipSpace(t, i, end) == i;
      assert ScalarScan(t, i, end) == i;
    }
  }

  /** `[}` : an open bracket and a closing brace, the shortest payload the builder never returns from. */
  lemma BraceHangs()
    ensures MenuBar([OPEN_BRACKET, CLOSE_BRACE]) == Some(Hang)
  {
    var t := [OPEN_BRACKET, CLOSE_BRACE];
    StuckTurnExact(t, 1, 2, 0);
    assert SkipSpace(t, 0, 2) == 0;
    assert BuildLoop(t, 1, 2, 0) == Hang;
  }

  /** Away from a brace, a delimiter and a blank, a value takes up at least one byte. */
  lemma ValueAdvances(t: bytes, i: nat, end: nat)
    requires i < end <= |t| && !IsSpace(t[i])
    requires t[i] != COMMA && t[i] != CLOSE_BRACKET && t[i] != CLOSE_BRACE
    ensures ValueEnd(t, i, end).Some? ==> ValueEnd(t, i, end).value > i
  {
    hide ContainerScan, StringEnd;
  }

  // The walk of the builder over the positions where items start, without building anything. Each
  // predicate says that somewhere on it a closing brace stands where an item should start.

  predicate ArrayMeetsBrace(t: bytes, i: nat, end: nat, depth: nat)
    requires i <= end <= |t|
    decreases end - i, 3
  {
    depth <= MAX_DEPTH &&
    var start := SkipSpace(t, i, end);
    start < end && t[start] == OPEN_BRACKET && WalkMeetsBrace(t, start + 1, end, depth)
  }

  predicate WalkMeetsBrace(t: bytes, i: nat, end: nat, depth: nat)
    requires i <= end <= |t|
    decreases end - i, 2
  {
    var cursor := SkipSpace(t, i, end);
    if cursor == end || t[cursor] == CLOSE_BRACKET then false
    else if t[cursor] == COMMA then WalkMeetsBrace(t, cursor + 1, end, depth)
    else if t[cursor] == CLOSE_BRACE then true
    else
      ValueAdvances(t, cursor, end);
      match ValueEnd(t, cursor, end)
      case None => false
      case Some(itemEnd) =>
        || ItemMeetsBrace(t, cursor, itemEnd, depth)
        || WalkMeetsBrace(t, AfterComma(t, SkipSpace(t, itemEnd, end), end), end, depth)
  }

  /** Only the array of a submenu with a label is entered. */
  predicate ItemMeetsBrace(t: bytes, i: nat, end: nat, depth: nat)
    requires i <= end <= |t|
    decreases end - i, 1
  {
    && i < end && t[i] == OPEN_BRACE
    && StringMember(t, i, end, KIND) == Some(SUBMENU) && StringMember(t, i, end, LABEL).Some?
    && match FindMember(t, i, end, ITEMS)
       case NoMember => false
       case Member(children, stop) =>
         children < stop && t[children] == OPEN_BRACKET && ArrayMeetsBrace(t, children, stop, depth + 1)
  }

  /** The builder never returns from exactly those arrays, at any nesting and on any bytes. */
  lemma {:induction false} ArrayHangsExact(t: bytes, i: nat, end: nat, depth: nat)
    requires i <= end <= |t|
    ensures BuildArray(t, i, end, depth) == Hang <==> ArrayMeetsBrace(t, i, end, depth)
    decreases end - i, 3
  {
    hide SkipSpace, BuildLoop, WalkMeetsBrace;
    var start := SkipSpace(t, i, end);
    if depth <= MAX_DEPTH && start < end && t[start] == OPEN_BRACKET {
      LoopHangsExact(t, start + 1, end, depth);
    }
  }

  lemma {:induction false} LoopHangsExact(t: bytes, i: nat, end: nat, depth: nat)
    requires i <= end <= |t|
    ensures BuildLoop(t, i, end, depth) == Hang <==> WalkMeetsBrace(t, i, end, depth)
    decreases end - i, 2
  {
    hide SkipSpace, ValueEnd, BuildItem, ItemMeetsBrace;
    var cursor := SkipSpace(t, i, end);
    if cursor < end && t[cursor] == COMMA {
      LoopHangsExact(t, cursor + 1, end, depth);
    } else if cursor < end && t[cursor] == CLOSE_BRACE {
      BraceStops(t, i, end, depth);
    } else if cursor < end && t[cursor] != CLOSE_BRACKET {
      ValueAdvances(t, cursor, end);
      if ValueEnd(t, cursor, end).Some? {
        var itemEnd := ValueEnd(t, cursor, end).value;
        ItemHangsExact(t, cursor, itemEnd, depth);
        LoopHangsExact(t, AfterComma(t, SkipSpace(t, itemEnd, end), end), end, depth);
      }
    }
  }

  lemma {:induction false} ItemHangsExact(t: bytes, i: nat, end: nat, depth: nat)
    requires i <= end <= |t|
    ensures BuildItem(t, i, end, depth) == Hang <==> ItemMeetsBrace(t, i, end, depth)
    decreases end - i, 1
  {
    hide SkipSpace, StringMember, BoolMember, FindMember, BuildArray, ArrayMeetsBrace, CString, Click;
    match FindMember(t, i, end, ITEMS)
    case NoMember =>
    case Member(children, stop) => ArrayHangsExact(t, children, stop, depth + 1);
  }

  /** A brace after blanks is reached in one turn and then met for ever. */
  lemma BraceStops(t: bytes, i: nat, end: nat, depth: nat)
    requires i <= end <= |t|
    requires var cursor := SkipSpace(t, i, end); cursor < end && t[cursor] == CLOSE_BRACE
    ensures BuildLoop(t, i, end, depth) == Hang
  {
    hide StringMember, BoolMember, FindMember, ContainerScan, StringEnd, BuildArray;
    var cursor := SkipSpace(t, i, end);
    StuckTurnExact(t, cursor, end, depth);
    assert SkipSpace(t, cursor, end) == cursor && ScalarScan(t, cursor, end) == cursor;
    assert LoopBody(t, i, end, depth) == LoopBody(t, cursor, end, depth);
    assert BuildLoop(t, cursor, end, depth) == Hang;
  }

  /** The builder hangs on exactly those payloads. */
  lemma MenuBarHangsExact(payload: bytes)
    ensures MenuBar(payload) == Some(Hang) <==>
            var range := ItemsRange(payload);
            range.Member? && ArrayMeetsBrace(payload, range.value, range.stop, 0)
  {
    hide ItemsRange, BuildArray, ArrayMeetsBrace;
    match ItemsRange(payload)
    case NoMember =>
    case Member(items, end) => ArrayHangsExact(payload, items, end, 0);
  }

  // ----- the meaning of a JSON tree as a menu -----

  function Lookup(members: Members, name: bytes): Option<Value> {
    match members
    case MNil => None
    case MCons(_, key, _, _, v, _, rest) => if key == name then Some(v) else Lookup(rest, name)
  }

  function TreeString(members: Members, name: bytes): Option<bytes> {
    match Lookup(members, name)
    case Some(Str(raw)) => Some(raw)
    case _ => None
  }

  function TreeBool(members: Members, name: bytes, fallback: bool): bool {
    match Lookup(members, name)
    case Some(Scalar(text)) => if text == TRUE then true else if text == FALSE then false else fallback
    case _ => fallback
  }

  function Interpret(elems: Elems, depth: nat): seq<Node>
    decreases MAX_DEPTH + 1 - depth, elems, 1
  {
    if depth > MAX_DEPTH then []
    else
      match elems
      case ENil => []
      case ECons(_, v, _, rest) => InterpretItem(v, depth) + Interpret(rest, depth)
  }

  function InterpretItem(v: Value, depth: nat): seq<Node>
    requires depth <= MAX_DEPTH
    decreases MAX_DEPTH + 1 - depth, v, 0
  {
    if !v.Obj? then []
    else
      var m := v.members;
      var kind := TreeString(m, KIND);
      if kind == Some(SEPARATOR) then [Separator]
      else
        match TreeString(m, LABEL)
        case None => []
        case Some(title) =>
          var enabled := TreeBool(m, ENABLED, true);
          if kind == Some(SUBMENU) then
            match Lookup(m, ITEMS)
            case Some(Arr(_, elems)) => [Submenu(title, enabled, Interpret(elems, depth + 1))]
            case _ => [Bare(title, enabled)]
          else
            var click := Click(TreeString(m, ID));
            if kind == Some(CHECK) then [Check(title, enabled, TreeBool(m, CHECKED, false), click)]
            else [Plain(title, enabled, click)]
  }

  // ----- the builder reads every well-formed array as the tree says -----

  lemma {:induction false} RawHoldsNoNul(raw: bytes)
    requires WellFormedRaw(raw)
    ensures NUL !in raw
    decreases |raw|
  {
    if raw != [] {
      var n := if raw[0] != BACKSLASH then 1 else if raw[1] == 117 then 6 else 2;
      RawHoldsNoNul(raw[n..]);
      assert raw == raw[..n] + raw[n..];
    }
  }

  lemma {:induction false} LocateLookup(members: Members, name: bytes, i: nat)
    ensures match Lookup(members, name)
            case None => Locate(members, name, i) == Missing
            case Some(v) => Locate(members, name, i).Found? && Locate(members, name, i).v == v
  {
    hide ValueOffset, Print;
    if members.MCons? {
      LocateLookup(members.rest, name, i + ValueOffset(members) + |Print(members.v)| + |members.after| + 1);
    }
  }

  /** The object `v` fills the range `i..end`. */
  ghost predicate ObjectRange(t: bytes, i: nat, end: nat, v: Value) {
    v.Obj? && WellFormed(v) && At(t, i, Print(v)) && end == i + |Print(v)| <= |t|
  }

  /** Member lookup at the level of the tree. */
  lemma LookupRange(t: bytes, i: nat, end: nat, v: Value, name: bytes)
    requires ObjectRange(t, i, end, v)
    ensures match Lookup(v.members, name)
            case None => FindMember(t, i, end, name) == NoMember
            case Some(w) =>
              && FindMember(t, i, end, name).Member?
              && var Member(value, stop) := FindMember(t, i, end, name);
                 && WellFormed(w) && At(t, value, Print(w)) && i < value < stop <= end
                 && stop >= value + |Print(w)| && (!w.Scalar? ==> stop == value + |Print(w)|)
                 && SkipSpace(t, value, stop) == value && t[value] == Print(w)[0]
  {
    hide At, WellFormedMembers, PrintMembers, FindMember, Print, SkipSpace;
    FindMemberExact(t, i, end, name, v.pad, v.members);
    LocateLookup(v.members, name, i + 1);
    match Lookup(v.members, name)
    case None =>
    case Some(w) =>
      MembersInside(t, i, end, v);
      LocatedStands(t, i + 1, end, name, v.members);
      var found := Locate(v.members, name, i + 1);
      PrintFirst(t, found.value, w);
      NoSpaceAt(t, found.value, found.value + Stop(w, found.after));
  }

  lemma NoSpaceAt(t: bytes, i: nat, end: nat)
    requires i < end <= |t| && !IsSpace(t[i])
    ensures SkipSpace(t, i, end) == i
  {}

  lemma MembersInside(t: bytes, i: nat, end: nat, v: Value)
    requires ObjectRange(t, i, end, v) && v.members.MCons?
    ensures MembersStand(t, i + 1, end, v.members)
  {
    hide At, WellFormedMembers, PrintMembers;
    var body := ObjectBody(v.pad, v.members);
    AtSplit(t, i, [OPEN_BRACE], body + [CLOSE_BRACE]);
    AtSplit(t, i + 1, body, [CLOSE_BRACE]);
    AtByte(t, i + 1 + |body|, CLOSE_BRACE);
  }

  lemma StringMemberExact(t: bytes, i: nat, end: nat, v: Value, name: bytes)
    requires ObjectRange(t, i, end, v)
    ensures StringMember(t, i, end, name) == TreeString(v.members, name)
    ensures StringMember(t, i, end, name).Some? ==> NUL !in StringMember(t, i, end, name).value
  {
    hide At, WellFormed, FindMember, SkipSpace, Print, StringScan;
    LookupRange(t, i, end, v, name);
    match Lookup(v.members, name)
    case None =>
    case Some(w) =>
      var Member(value, stop) := FindMember(t, i, end, name);
      FirstByte(w);
      if w.Str? {
        StrIsRaw(w);
        PrintStr(w);
        StringEndQuoted(t, value, stop, w.raw);
        RawHoldsNoNul(w.raw);
      }
  }

  lemma PrintStr(v: Value)
    requires v.Str?
    ensures Print(v) == Quoted(v.raw)
  {}

  lemma BoolMemberExact(t: bytes, i: nat, end: nat, v: Value, name: bytes, fallback: bool)
    requires ObjectRange(t, i, end, v)
    ensures BoolMember(t, i, end, name, fallback) == TreeBool(v.members, name, fallback)
  {
    hide At, WellFormed, FindMember, SkipSpace, Print;
    LookupRange(t, i, end, v, name);
    match Lookup(v.members, name)
    case None =>
    case Some(w) =>
      var Member(value, stop) := FindMember(t, i, end, name);
      WordAt(t, value, stop, w, TRUE);
      WordAt(t, value, stop, w, FALSE);
  }

  /** A range that starts with a letter word holds exactly that literal. */
  lemma WordAt(t: bytes, value: nat, stop: nat, w: Value, word: bytes)
    requires word == TRUE || word == FALSE
    requires WellFormed(w) && At(t, value, Print(w)) && stop <= |t| && stop >= value + |Print(w)|
    requires !w.Scalar? ==> stop == value + |Print(w)|
    ensures HasWord(t, value, stop, word) <==> w == Scalar(word)
  {
    hide At, WellFormed;
    FirstByte(w);
    AtSlice(t, value, Print(w));
    assert t[value] == Print(w)[0];
    assert HasWord(t, value, stop, word) ==> t[value..value + |word|][0] == t[value];
    if w.Scalar? {
      ScalarWord(w, word);
      if HasWord(t, value, stop, word) {
        var n := if |word| < |w.text| then |word| else |w.text|;
        assert t[value..value + |word|][..n] == t[value..value + n] == w.text[..n] by {
          assert t[value..value + |w.text|][..n] == t[value..value + n];
        }
        assert word[..n] == w.text[..n];
      }
    }
  }

  /** Among the literals and numbers only the literal itself shares a long enough beginning with it. */
  lemma ScalarWord(w: Value, word: bytes)
    requires w.Scalar? && WellFormed(w) && (word == TRUE || word == FALSE)
    ensures w.text != []
    ensures var n := if |word| < |w.text| then |word| else |w.text|;
            w.text[..n] == word[..n] ==> w.text == word
  {
    var n := if |word| < |w.text| then |word| else |w.text|;
    if w.text[..n] == word[..n] {
      assert w.text[0] == w.text[..n][0] == word[..n][0] == word[0];
    }
  }

  // Elements from `i` on, then the closing bracket of their array.
  ghost predicate ElemsStand(t: bytes, i: nat, end: nat, elems: Elems) {
    && end <= |t| && WellFormedElems(elems) && At(t, i, PrintElems(elems))
    && i + |PrintElems(elems)| < end && t[i + |PrintElems(elems)|] == CLOSE_BRACKET
  }

  lemma ElemLayout(t: bytes, i: nat, e: Elems)
    requires e.ECons? && At(t, i, PrintElems(e))
    ensures At(t, i, e.before) && At(t, i + |e.before|, Print(e.v))
    ensures At(t, i + |e.before| + |Print(e.v)|, e.after)
    ensures At(t, i + |e.before| + |Print(e.v)| + |e.after|, ElemsTail(e.rest))
    ensures |PrintElems(e)| == |e.before| + |Print(e.v)| + |e.after| + |ElemsTail(e.rest)|
  {
    hide At, Print, ElemsTail;
    AtSplit(t, i, e.before, Print(e.v) + (e.after + ElemsTail(e.rest)));
    AtSplit(t, i + |e.before|, Print(e.v), e.after + ElemsTail(e.rest));
    AtSplit(t, i + |e.before| + |Print(e.v)|, e.after, ElemsTail(e.rest));
  }

  lemma HeadElem(t: bytes, i: nat, end: nat, e: Elems)
    requires e.ECons? && ElemsStand(t, i, end, e)
    ensures var value := i + |e.before|;
            var next := value + |Print(e.v)| + |e.after|;
            && value < end && SkipSpace(t, i, end) == value && At(t, value, Print(e.v)) && WellFormed(e.v)
            && |Print(e.v)| > 0 && t[value] == Print(e.v)[0] && !IsDelimiter(t[value])
            && ValueEnd(t, value, end) == Some(value + Stop(e.v, e.after))
            && SkipSpace(t, value + Stop(e.v, e.after), end) == next < end
            && t[next] == (if e.rest.ECons? then COMMA else CLOSE_BRACKET)
            && (e.rest.ECons? ==> ElemsStand(t, next + 1, end, e.rest))
  {
    hide At, WellFormed, Print, ValueEnd, PrintElems, SkipSpace, Blank, Stop;
    ElemLayout(t, i, e);
    var value := i + |e.before|;
    var next := value + |Print(e.v)| + |e.after|;
    PrintFirst(t, value, e.v);
    SkipBlank(t, i, end, e.before);
    if e.rest.ECons? {
      AtSplit(t, next, [COMMA], PrintElems(e.rest));
      AtByte(t, next, COMMA);
    }
    ValueEndExact(t, value, end, e.v, e.after);
  }

  lemma {:induction false} BuildElemsExact(t: bytes, i: nat, end: nat, elems: Elems, depth: nat)
    requires ElemsStand(t, i, end, elems) && elems.ECons? && depth <= MAX_DEPTH
    ensures BuildLoop(t, i, end, depth) == Items(Interpret(elems, depth))
    decreases end - i, 3
  {
    hide At, WellFormed, Print, ValueEnd, BuildItem, SkipSpace, InterpretItem, PrintElems, WellFormedElems;
    HeadElem(t, i, end, elems);
    var value := i + |elems.before|;
    var next := value + |Print(elems.v)| + |elems.after|;
    BuildItemExact(t, value, value + Stop(elems.v, elems.after), elems.v, depth);
    if elems.rest.ECons? {
      BuildElemsExact(t, next + 1, end, elems.rest, depth);
    } else {
      ClosingEnds(t, next, end, depth);
    }
  }

  lemma ClosingEnds(t: bytes, i: nat, end: nat, depth: nat)
    requires i < end <= |t| && t[i] == CLOSE_BRACKET
    ensures BuildLoop(t, i, end, depth) == Items([])
  {
    NoSpaceAt(t, i, end);
  }

  lemma {:induction false} BuildItemExact(t: bytes, i: nat, end: nat, v: Value, depth: nat)
    requires WellFormed(v) && At(t, i, Print(v)) && i + |Print(v)| <= end <= |t| && depth <= MAX_DEPTH
    requires !v.Scalar? ==> end == i + |Print(v)|
    ensures BuildItem(t, i, end, depth) == Items(InterpretItem(v, depth))
    decreases end - i, 1
  {
    hide At, WellFormed, Print, StringMember, BoolMember, FindMember, BuildArray, Interpret, TreeString, TreeBool,
         CString;
    PrintFirst(t, i, v);
    FirstByte(v);
    if v.Obj? {
      StringMemberExact(t, i, end, v, KIND);
      StringMemberExact(t, i, end, v, LABEL);
      StringMemberExact(t, i, end, v, ID);
      BoolMemberExact(t, i, end, v, ENABLED, true);
      BoolMemberExact(t, i, end, v, CHECKED, false);
      LookupRange(t, i, end, v, ITEMS);
      if Lookup(v.members, ITEMS).Some? {
        var w := Lookup(v.members, ITEMS).value;
        FirstByte(w);
        if w.Arr? {
          var Member(value, stop) := FindMember(t, i, end, ITEMS);
          BuildArrayExact(t, value, stop, w, depth + 1);
        }
      }
    }
  }

  /** For every well-formed JSON array the builder returns exactly what the tree says, at every depth;
      below nesting depth 8 that is an empty submenu. */
  lemma {:induction false} BuildArrayExact(t: bytes, i: nat, end: nat, v: Value, depth: nat)
    requires v.Arr? && WellFormed(v) && At(t, i, Print(v)) && i + |Print(v)| <= end <= |t|
    ensures BuildArray(t, i, end, depth) == Items(Interpret(v.elems, depth))
    decreases end - i, 4
  {
    hide At, WellFormedElems, PrintElems, BuildLoop;
    if depth <= MAX_DEPTH {
      var body := ArrayBody(v.pad, v.elems);
      AtSplit(t, i, [OPEN_BRACKET], body + [CLOSE_BRACKET]);
      AtSplit(t, i + 1, body, [CLOSE_BRACKET]);
      AtByte(t, i, OPEN_BRACKET);
      AtByte(t, i + 1 + |body|, CLOSE_BRACKET);
      NoSpaceAt(t, i, end);
      if v.elems.ENil? {
        EmptyArray(t, i + 1, end, v.pad, depth);
      } else {
        BuildElemsExact(t, i + 1, end, v.elems, depth);
      }
    }
  }

  lemma EmptyArray(t: bytes, i: nat, end: nat, pad: bytes, depth: nat)
    requires At(t, i, pad) && Blank(pad) && i + |pad| < end <= |t| && t[i + |pad|] == CLOSE_BRACKET
    ensures BuildLoop(t, i, end, depth) == Items([])
  {
    SkipBlank(t, i, end, pad);
  }
}
