/** Menu payloads: what a whole payload means, and the round trip from a menu tree through its JSON
    text, in any layout, back to the tree. */
module MenuRoundTrip {
  import opened Results
  import opened Bytes
  import opened Words
  import opened JsonGrammar
  import opened JsonScanner
  import opened MenuBuilder

  // ----- whole payloads -----

  /** The menu of a payload tree: an array of items, or an object whose `items` is one. */
  function TreeMenu(v: Value): Option<seq<Node>> {
    match v
    case Arr(_, elems) => Some(Interpret(elems, 0))
    case Obj(_, members) =>
      (match Lookup(members, ITEMS)
       case Some(Arr(_, elems)) => Some(Interpret(elems, 0))
       case _ => None)
    case _ => None
  }

  /** Where the text of a value surrounded by blanks stands. */
  lemma PaddedValue(payload: bytes, before: bytes, v: Value, after: bytes)
    requires payload == before + (Print(v) + after) && Blank(before) && WellFormed(v)
    ensures |before| + |Print(v)| <= |payload| && |before| < |payload|
    ensures At(payload, |before|, Print(v)) && payload[|before|] == Print(v)[0]
    ensures SkipSpace(payload, 0, |payload|) == |before|
  {
    hide At, WellFormed, Print, SkipSpace, Blank;
    AtSlice(payload, 0, payload);
    AtSplit(payload, 0, before, Print(v) + after);
    AtSplit(payload, |before|, Print(v), after);
    PrintFirst(payload, |before|, v);
    SkipBlank(payload, 0, |payload|, before);
  }

  /** The `items` member of an object payload, read in the range of the whole payload. */
  lemma PayloadItems(t: bytes, root: nat, v: Value)
    requires v.Obj? && WellFormed(v) && At(t, root, Print(v)) && root + |Print(v)| <= |t|
    ensures match Lookup(v.members, ITEMS)
            case None => FindMember(t, root, |t|, ITEMS) == NoMember
            case Some(w) =>
              && FindMember(t, root, |t|, ITEMS).Member?
              && var Member(value, stop) := FindMember(t, root, |t|, ITEMS);
                 && value < stop && (t[value] == OPEN_BRACKET <==> w.Arr?)
                 && (w.Arr? ==> BuildArray(t, value, stop, 0) == Items(Interpret(w.elems, 0)))
  {
    hide At, WellFormed, Print, FindMember, BuildArray, SkipSpace, Interpret;
    LookupRange(t, root, root + |Print(v)|, v, ITEMS);
    FindMemberExact(t, root, |t|, ITEMS, v.pad, v.members);
    FindMemberExact(t, root, root + |Print(v)|, ITEMS, v.pad, v.members);
    if Lookup(v.members, ITEMS).Some? {
      var w := Lookup(v.members, ITEMS).value;
      FirstByte(w);
      if w.Arr? {
        var Member(value, stop) := FindMember(t, root, |t|, ITEMS);
        BuildArrayExact(t, value, stop, w, 0);
      }
    }
  }

  /** On every RFC 8259 text the native menu bar is the menu of its tree: the builder returns, and it
      shows a bar exactly when the text holds an array of items. */
  lemma MenuBarExact(payload: bytes, before: bytes, v: Value, after: bytes)
    requires payload == before + (Print(v) + after) && Blank(before) && WellFormed(v)
    ensures match TreeMenu(v)
            case None => MenuBar(payload) == None
            case Some(items) => MenuBar(payload) == Some(Items(items))
  {
    hide At, WellFormed, Print, FindMember, BuildArray, SkipSpace, Interpret, Blank, Lookup;
    PaddedValue(payload, before, v, after);
    FirstByte(v);
    if v.Arr? {
      BuildArrayExact(payload, |before|, |payload|, v, 0);
    } else if v.Obj? {
      PayloadItems(payload, |before|, v);
    }
  }

  // ----- menu trees and their JSON -----

  /** A JSON object describes a menu node: the members may come in any order, with others between. */
  predicate Describes(v: Value, node: Node)
    decreases node, 0
  {
    v.Obj? &&
    var m := v.members;
    var kind := TreeString(m, KIND);
    match node
    case Separator => kind == Some(SEPARATOR)
    case Plain(title, enabled, click) =>
      && kind != Some(SEPARATOR) && kind != Some(SUBMENU) && kind != Some(CHECK)
      && TreeString(m, LABEL) == Some(title) && TreeBool(m, ENABLED, true) == enabled
      && Click(TreeString(m, ID)) == click
    case Check(title, enabled, active, click) =>
      && kind == Some(CHECK)
      && TreeString(m, LABEL) == Some(title) && TreeBool(m, ENABLED, true) == enabled
      && TreeBool(m, CHECKED, false) == active && Click(TreeString(m, ID)) == click
    case Submenu(title, enabled, children) =>
      && kind == Some(SUBMENU)
      && TreeString(m, LABEL) == Some(title) && TreeBool(m, ENABLED, true) == enabled
      && Lookup(m, ITEMS).Some? && Lookup(m, ITEMS).value.Arr?
      && DescribesAll(Lookup(m, ITEMS).value.elems, children)
    case Bare(title, enabled) =>
      && kind == Some(SUBMENU)
      && TreeString(m, LABEL) == Some(title) && TreeBool(m, ENABLED, true) == enabled
      && (Lookup(m, ITEMS).Some? ==> !Lookup(m, ITEMS).value.Arr?)
  }

  predicate DescribesAll(elems: Elems, nodes: seq<Node>)
    decreases nodes, 1
  {
    match elems
    case ENil => nodes == []
    case ECons(_, v, _, rest) => nodes != [] && Describes(v, nodes[0]) && DescribesAll(rest, nodes[1..])
  }

  /** The tree with everything below nesting depth 8 dropped: a submenu there is empty. */
  function Cut(nodes: seq<Node>, depth: nat): seq<Node>
    decreases nodes, 1
  {
    if depth > MAX_DEPTH || nodes == [] then []
    else [CutNode(nodes[0], depth)] + Cut(nodes[1..], depth)
  }

  function CutNode(node: Node, depth: nat): Node
    decreases node, 0
  {
    match node
    case Submenu(title, enabled, children) => Submenu(title, enabled, Cut(children, depth + 1))
    case _ => node
  }

  lemma {:induction false} InterpretDescribed(elems: Elems, nodes: seq<Node>, depth: nat)
    requires DescribesAll(elems, nodes)
    ensures Interpret(elems, depth) == Cut(nodes, depth)
    decreases nodes, 1
  {
    if depth <= MAX_DEPTH && elems.ECons? {
      InterpretDescribedItem(elems.v, nodes[0], depth);
      InterpretDescribed(elems.rest, nodes[1..], depth);
    }
  }

  lemma {:induction false} InterpretDescribedItem(v: Value, node: Node, depth: nat)
    requires Describes(v, node) && depth <= MAX_DEPTH
    ensures InterpretItem(v, depth) == [CutNode(node, depth)]
    decreases node, 0
  {
    hide Lookup, TreeBool, Click;
    if node.Submenu? {
      InterpretDescribed(Lookup(v.members, ITEMS).value.elems, node.children, depth + 1);
    }
  }

  /** Menu round trip: any JSON text of a menu, whatever its blanks and member order, is built into
      exactly that menu, in order, with only the children below nesting depth 8 cut away. */
  lemma MenuRoundTrip(payload: bytes, before: bytes, pad: bytes, elems: Elems, after: bytes, menu: seq<Node>)
    requires payload == before + (Print(Arr(pad, elems)) + after)
    requires Blank(before) && WellFormed(Arr(pad, elems))
    requires DescribesAll(elems, menu)
    ensures MenuBar(payload) == Some(Items(Cut(menu, 0)))
  {
    hide Print, WellFormed, MenuBar, Interpret;
    MenuBarExact(payload, before, Arr(pad, elems), after);
    InterpretDescribed(elems, menu, 0);
  }

  // ----- how deep a menu is shown -----

  /** How many levels of items stand one inside the other. */
  function Height(nodes: seq<Node>): nat
    decreases nodes, 1
  {
    if nodes == [] then 0
    else
      var first, rest := NodeHeight(nodes[0]), Height(nodes[1..]);
      if first + 1 > rest then first + 1 else rest
  }

  function NodeHeight(node: Node): nat
    decreases node, 0
  {
    match node
    case Submenu(_, _, children) => Height(children)
    case _ => 0
  }

  /** Nine levels are shown, and no more: nothing is cut exactly when the menu has no tenth. */
  lemma NineLevels(menu: seq<Node>)
    ensures Cut(menu, 0) == menu <==> Height(menu) <= 9
    ensures Height(Cut(menu, 0)) <= 9
  {
    CutExact(menu, 0);
  }

  lemma {:induction false} CutExact(nodes: seq<Node>, depth: nat)
    requires depth <= 9
    ensures Cut(nodes, depth) == nodes <==> Height(nodes) <= 9 - depth
    ensures Height(Cut(nodes, depth)) <= 9 - depth
    decreases nodes, 1
  {
    if depth <= 8 && nodes != [] {
      var first, rest := CutNode(nodes[0], depth), Cut(nodes[1..], depth);
      CutNodeExact(nodes[0], depth);
      CutExact(nodes[1..], depth);
      assert ([first] + rest)[1..] == rest && nodes == [nodes[0]] + nodes[1..];
    }
  }

  lemma {:induction false} CutNodeExact(node: Node, depth: nat)
    requires depth <= 8
    ensures CutNode(node, depth) == node <==> NodeHeight(node) <= 8 - depth
    ensures NodeHeight(CutNode(node, depth)) <= 8 - depth
    decreases node, 0
  {
    if node.Submenu? {
      CutExact(node.children, depth + 1);
    }
  }
}
