/** The application menu over runs of the menu plugin: what it stores, what it asks of the native loop, and
    what the windows show. */
module MenuRuns {
  import opened Results
  import opened Bytes
  import opened Words
  import opened PacketCodec
  import opened JsonGrammar
  import opened MenuBuilder
  import opened MenuRoundTrip
  import opened MenuAgreement
  import opened LoopSpec
  import LoopInvariants
  import LoopTheorems

  // ----- changing one item of a stored menu -----

  datatype Field = Enabled | Checked

  datatype Update = Update(id: bytes, field: Field, value: bool)

  function Enable(u: Update, present: bool): bool {
    if u.field == Enabled then u.value else present
  }

  /** An item with the identifier is changed; only the items of other submenus are searched further. */
  function UpdateItem(item: MenuItem, u: Update): MenuItem
    decreases item, 0
  {
    match item
    case SeparatorItem => item
    case ActionItem(id, title, enabled) => if id == u.id then ActionItem(id, title, Enable(u, enabled)) else item
    case CheckItem(id, title, enabled, checked) =>
      if id != u.id then item
      else CheckItem(id, title, Enable(u, enabled), if u.field == Checked then u.value else checked)
    case SubmenuItem(id, title, enabled, items) =>
      if id == u.id then SubmenuItem(id, title, Enable(u, enabled), items)
      else SubmenuItem(id, title, enabled, UpdateItems(items, u))
  }

  function UpdateItems(items: seq<MenuItem>, u: Update): (r: seq<MenuItem>)
    ensures |r| == |items|
    ensures forall k :: 0 <= k < |items| ==> r[k] == UpdateItem(items[k], u)
    decreases items, 1
  {
    if items == [] then [] else [UpdateItem(items[0], u)] + UpdateItems(items[1..], u)
  }

  /** The identifier stands on an item of the menu, at any depth. */
  predicate Holds(items: seq<MenuItem>, id: bytes)
    decreases items, 1
  {
    exists k :: 0 <= k < |items| && ItemHolds(items[k], id)
  }

  predicate ItemHolds(item: MenuItem, id: bytes)
    decreases item, 0
  {
    match item
    case SeparatorItem => false
    case ActionItem(own, _, _) => own == id
    case CheckItem(own, _, _, _) => own == id
    case SubmenuItem(own, _, _, items) => own == id || Holds(items, id)
  }

  method UpdateMenuItems(items: seq<MenuItem>, u: Update) returns (next: seq<MenuItem>, found: bool)
    ensures next == UpdateItems(items, u)
    ensures found <==> Holds(items, u.id)
    decreases items
  {
    next, found := [], false;
    for k := 0 to |items|
      invariant |next| == k && forall j :: 0 <= j < k ==> next[j] == UpdateItem(items[j], u)
      invariant found <==> exists j :: 0 <= j < k && ItemHolds(items[j], u.id)
    {
      var item := items[k];
      match item
      case SeparatorItem => next := next + [item];
      case ActionItem(id, _, _) =>
        next := next + [UpdateItem(item, u)];
        found := found || id == u.id;
      case CheckItem(id, _, _, _) =>
        next := next + [UpdateItem(item, u)];
        found := found || id == u.id;
      case SubmenuItem(id, title, enabled, children) =>
        if id == u.id {
          next := next + [UpdateItem(item, u)];
          found := true;
        } else {
          var child, inside := UpdateMenuItems(children, u);
          next := next + [SubmenuItem(id, title, enabled, child)];
          found := found || inside;
        }
    }
  }

  // ----- when a change can be seen -----

  /** Every item shown that the change reaches has the value already. */
  predicate Idle(items: seq<MenuItem>, u: Update, depth: nat)
    decreases items, 1
  {
    depth <= MAX_DEPTH && items != [] ==> IdleItem(items[0], u, depth) && Idle(items[1..], u, depth)
  }

  predicate IdleItem(item: MenuItem, u: Update, depth: nat)
    decreases item, 0
  {
    match item
    case SeparatorItem => true
    case ActionItem(id, _, enabled) => id == u.id && u.field == Enabled ==> enabled == u.value
    case CheckItem(id, _, enabled, checked) =>
      id == u.id ==> (if u.field == Enabled then enabled else checked) == u.value
    case SubmenuItem(id, _, enabled, items) =>
      if id == u.id then u.field == Enabled ==> enabled == u.value else Idle(items, u, depth + 1)
  }

  lemma {:induction false} IdleExact(items: seq<MenuItem>, u: Update, depth: nat)
    ensures Cut(NodesOf(UpdateItems(items, u)), depth) == Cut(NodesOf(items), depth) <==> Idle(items, u, depth)
    decreases items, 1
  {
    hide NodeOf, CutNode, UpdateItem, IdleItem;
    if depth <= MAX_DEPTH && items != [] {
      var next := UpdateItems(items, u);
      IdleItemExact(items[0], u, depth);
      IdleExact(items[1..], u, depth);
      assert next[1..] == UpdateItems(items[1..], u);
      assert NodesOf(items)[1..] == NodesOf(items[1..]) && NodesOf(next)[1..] == NodesOf(next[1..]);
      var a, b := Cut(NodesOf(next[1..]), depth), Cut(NodesOf(items[1..]), depth);
      assert ([CutNode(NodeOf(next[0]), depth)] + a)[1..] == a && ([CutNode(NodeOf(items[0]), depth)] + b)[1..] == b;
      assert Cut(NodesOf(next), depth)[0] == CutNode(NodeOf(next[0]), depth);
      assert Cut(NodesOf(items), depth)[0] == CutNode(NodeOf(items[0]), depth);
    }
  }

  lemma {:induction false} IdleItemExact(item: MenuItem, u: Update, depth: nat)
    ensures CutNode(NodeOf(UpdateItem(item, u)), depth) == CutNode(NodeOf(item), depth) <==> IdleItem(item, u, depth)
    decreases item, 0
  {
    hide NodesOf, Cut, Idle, UpdateItems;
    if item.SubmenuItem? && item.id != u.id {
      IdleExact(item.items, u, depth + 1);
    }
  }

  // ----- the plugin and the loop -----

  /** The stored application menu, and the native loop. */
  datatype View = View(stored: Option<seq<MenuItem>>, s: Loop)

  datatype PluginCall =
    | MenuSet(payload: bytes, v: Value)
    | MenuCleared(payload: bytes)
    | ItemChanged(u: Update, payload: bytes)

  /** The record of a menu operation for the application menu. */
  function Recorded(action: bytes, payload: bytes): Record {
    Record(DESKTOP_SHELL, [], MENU_DOMAIN + action, payload, [], [], [], [], [], [], [], [], [], [])
  }

  function Accepted(v: Value): Option<seq<MenuItem>> {
    var menu := DecodePayload(v);
    if menu.Some? && ValidMenu(menu.value) then menu else None
  }

  /** A refused call stores nothing and asks for nothing. */
  function React(p: View, call: PluginCall): View {
    match call
    case MenuSet(payload, v) =>
      if Accepted(v).None? then p else View(Accepted(v), ShellAction(p.s, Recorded(SET_APP_MENU, payload)))
    case MenuCleared(payload) => View(None, ShellAction(p.s, Recorded(CLEAR_APP_MENU, payload)))
    case ItemChanged(u, payload) =>
      if p.stored.None? || !Holds(p.stored.value, u.id) then p
      else
        var action := if u.field == Enabled then SET_ITEM_ENABLED else SET_ITEM_CHECKED;
        View(Some(UpdateItems(p.stored.value, u)), ShellAction(p.s, Recorded(action, payload)))
  }

  function Run(p: View, calls: seq<PluginCall>): View
    decreases |calls|
  {
    if calls == [] then p else React(Run(p, calls[..|calls| - 1]), calls[|calls| - 1])
  }

  predicate Follows(slot: Slot) {
    slot.window != 0 && !slot.hasWindowMenu
  }

  /** What showing the stored menu means. */
  function Expected(stored: Option<seq<MenuItem>>): Option<Menu> {
    if stored.Some? then Some(Cut(NodesOf(stored.value), 0)) else None
  }

  /** Every window without a menu of its own shows the stored menu. */
  ghost predicate Agrees(p: View) {
    forall i :: 0 <= i < |p.s.slots| && Follows(p.s.slots[i]) ==> p.s.slots[i].menuBar == Expected(p.stored)
  }

  ghost predicate SomeFollows(s: Loop) {
    exists i :: 0 <= i < |s.slots| && Follows(s.slots[i])
  }

  /** The text is this JSON value with blanks around it. */
  ghost predicate Parses(payload: bytes, v: Value) {
    WellFormed(v) && exists before: bytes, after: bytes :: Blank(before) && payload == before + (Print(v) + after)
  }

  /** Payloads are JSON, and where the plugin accepts one, both readers take the same members. */
  ghost predicate Readable(call: PluginCall) {
    call.MenuSet? ==> Parses(call.payload, call.v) && (Accepted(call.v).Some? ==> SameMembersPayload(call.v))
  }

  /** A menu that is set has no escape in a shown text; a change finds the value it sets. */
  predicate Meets(p: View, call: PluginCall) {
    match call
    case MenuSet(_, v) => Accepted(v).Some? ==> NoEscapesAll(PayloadElems(v), 0)
    case MenuCleared(_) => true
    case ItemChanged(u, _) => p.stored.Some? ==> Idle(p.stored.value, u, 0)
  }

  // ----- each call, and whole runs -----

  /** The native loop has no case for a change of one item: it stays as it is. */
  lemma ItemActionsIgnored(s: Loop, action: bytes, payload: bytes)
    requires action == SET_ITEM_ENABLED || action == SET_ITEM_CHECKED
    ensures ShellAction(s, Recorded(action, payload)) == s
  {
    hide Target;
    NoOtherAction(action);
  }

  lemma NoOtherAction(action: bytes)
    requires action == SET_ITEM_ENABLED || action == SET_ITEM_CHECKED
    ensures var full := MENU_DOMAIN + action;
            && !IsAction(full, MENU_DOMAIN, SET_APP_MENU) && !IsAction(full, MENU_DOMAIN, CLEAR_APP_MENU)
            && !IsAction(full, MENU_DOMAIN, SET_WINDOW_MENU) && !IsAction(full, MENU_DOMAIN, CLEAR_WINDOW_MENU)
            && !IsAction(full, APP_DOMAIN, RESTART) && !IsAction(full, APP_DOMAIN, EXIT)
            && !IsAction(full, APP_DOMAIN, SHOW) && !IsAction(full, APP_DOMAIN, HIDE)
  {
    var full := MENU_DOMAIN + action;
    assert full[5..] == action && |full| == 19 && full[0] == 109 && action[3] == 73;
    assert (MENU_DOMAIN + SET_WINDOW_MENU)[5..] == SET_WINDOW_MENU;
  }

  /** Setting and clearing the application menu reach exactly the windows that follow it. */
  lemma AppMenuActions(s: Loop, payload: bytes)
    ensures ShellAction(s, Recorded(SET_APP_MENU, payload)) == SetAppMenu(s, payload)
    ensures ShellAction(s, Recorded(CLEAR_APP_MENU, payload)) == ClearAppMenu(s)
  {
    hide SetAppMenu, ClearAppMenu, Target;
    assert |MENU_DOMAIN + CLEAR_APP_MENU| == 17 && |MENU_DOMAIN + SET_APP_MENU| == 15;
  }

  lemma FollowersStay(p: View, call: PluginCall)
    ensures var t := React(p, call);
            && |t.s.slots| == |p.s.slots|
            && forall i :: 0 <= i < |p.s.slots| ==> (Follows(t.s.slots[i]) <==> Follows(p.s.slots[i]))
  {
    hide ShellAction, Recorded, Bar, ValidMenu, DecodePayload, Holds, UpdateItems, AppMenuFits;
    match call
    case MenuSet(payload, _) => AppMenuActions(p.s, payload);
    case MenuCleared(payload) => AppMenuActions(p.s, payload);
    case ItemChanged(u, payload) =>
      ItemActionsIgnored(p.s, if u.field == Enabled then SET_ITEM_ENABLED else SET_ITEM_CHECKED, payload);
  }

  /** An accepted payload gives a menu bar, and the one stored exactly when no shown text has an escape. */
  lemma SetShowsExact(payload: bytes, v: Value)
    requires Parses(payload, v) && Accepted(v).Some? && SameMembersPayload(v)
    ensures payload != [] && Bar(payload).Some?
    ensures Bar(payload) == Expected(Accepted(v)) <==> NoEscapesAll(PayloadElems(v), 0)
  {
    hide WellFormed, Print, Blank, MenuBar, ValidMenu, SameMembersAll, NoEscapesAll, DecodeItems, Interpret, SameMember,
         MenuAgreement.Stored, Lookup, NodesOf, Cut;
    var before: bytes, after: bytes :| Blank(before) && payload == before + (Print(v) + after);
    MenuBarExact(payload, before, v, after);
    AcceptedAgreesExact(payload, before, v, after);
    PaddedValue(payload, before, v, after);
    if v.Obj? {
      SameMemberReads(v.members, ITEMS);
    }
  }

  /** From a state in which stored and shown menu agree, a call keeps them so exactly when it meets its
      condition; in particular an item change that changes anything shown is never shown. */
  lemma CallAgreesExact(p: View, call: PluginCall)
    requires Readable(call) && Agrees(p) && SomeFollows(p.s)
    ensures Agrees(React(p, call)) <==> Meets(p, call)
  {
    hide ShellAction, Recorded, Bar, Holds, UpdateItems, AppMenuFits, NoEscapesAll, Expected, Accepted, Idle, Parses,
         SameMembersPayload;
    var i :| 0 <= i < |p.s.slots| && Follows(p.s.slots[i]);
    match call
    case MenuSet(payload, v) =>
      if Accepted(v).Some? {
        SetShowsExact(payload, v);
        AppMenuActions(p.s, payload);
        assert Follows(React(p, call).s.slots[i]);
      }
    case MenuCleared(payload) =>
      AppMenuActions(p.s, payload);
      assert Expected(None) == None by { NothingExpected(); }
    case ItemChanged(u, payload) =>
      ItemActionsIgnored(p.s, if u.field == Enabled then SET_ITEM_ENABLED else SET_ITEM_CHECKED, payload);
      if p.stored.Some? {
        ChangeExact(p.stored.value, u);
      }
  }

  lemma NothingExpected()
    ensures Expected(None) == None
  {}

  lemma ChangeExact(items: seq<MenuItem>, u: Update)
    ensures Expected(Some(UpdateItems(items, u))) == Expected(Some(items)) <==> Idle(items, u, 0)
    ensures !Holds(items, u.id) ==> Idle(items, u, 0)
  {
    hide UpdateItems, Idle, NodesOf, Cut, Holds;
    IdleExact(items, u, 0);
    IdleWithout(items, u, 0);
  }

  lemma {:induction false} IdleWithout(items: seq<MenuItem>, u: Update, depth: nat)
    ensures !Holds(items, u.id) ==> Idle(items, u, depth)
    decreases items, 1
  {
    hide IdleItem, ItemHolds;
    if items != [] && !Holds(items, u.id) {
      assert !ItemHolds(items[0], u.id);
      IdleItemWithout(items[0], u, depth);
      assert forall k :: 0 <= k < |items[1..]| ==> items[1..][k] == items[k + 1];
      IdleWithout(items[1..], u, depth);
    }
  }

  lemma {:induction false} IdleItemWithout(item: MenuItem, u: Update, depth: nat)
    requires !ItemHolds(item, u.id)
    ensures IdleItem(item, u, depth)
    decreases item, 0
  {
    hide Holds, Idle;
    if item.SubmenuItem? {
      IdleWithout(item.items, u, depth + 1);
    }
  }

  lemma {:induction false} RunFollows(p: View, calls: seq<PluginCall>)
    requires SomeFollows(p.s)
    ensures SomeFollows(Run(p, calls).s)
    decreases |calls|
  {
    hide React, Follows;
    if calls != [] {
      var before := Run(p, calls[..|calls| - 1]);
      RunFollows(p, calls[..|calls| - 1]);
      FollowersStay(before, calls[|calls| - 1]);
      var i :| 0 <= i < |before.s.slots| && Follows(before.s.slots[i]);
      assert Follows(Run(p, calls).s.slots[i]);
    }
  }

  lemma RunUnfolds(p: View, calls: seq<PluginCall>, k: nat)
    requires k < |calls|
    ensures Run(p, calls[..k + 1]) == React(Run(p, calls[..k]), calls[k])
  {
    hide React;
    assert calls[..k + 1][..k] == calls[..k];
  }

  /** Over every run of menu calls: stored and shown menu agree all the way exactly when every call meets
      its condition in the state it finds. */
  lemma {:induction false} RunAgreesExact(p: View, calls: seq<PluginCall>)
    requires Agrees(p) && SomeFollows(p.s) && forall k :: 0 <= k < |calls| ==> Readable(calls[k])
    ensures (forall k :: 0 <= k <= |calls| ==> Agrees(Run(p, calls[..k]))) <==>
            (forall k :: 0 <= k < |calls| ==> Meets(Run(p, calls[..k]), calls[k]))
    decreases |calls|
  {
    hide React, Run, Agrees, Meets, Readable, SomeFollows;
    if calls == [] {
      assert Run(p, calls[..0]) == p by { EmptyRun(p, calls[..0]); }
    } else {
      var last := |calls| - 1;
      var init := calls[..last];
      RunAgreesExact(p, init);
      assert forall k :: 0 <= k <= last ==> init[..k] == calls[..k];
      var before := Run(p, init);
      RunFollows(p, init);
      RunUnfolds(p, calls, last);
      assert calls[..last + 1] == calls && init[..last] == init;
      if Agrees(before) {
        CallAgreesExact(before, calls[last]);
      }
    }
  }

  lemma EmptyRun(p: View, calls: seq<PluginCall>)
    requires calls == []
    ensures Run(p, calls) == p
  {}

  // ----- a menu the plugin stores and the loop does not show -----

  function With(key: bytes, v: Value, rest: Members): Members {
    MCons([], key, [], [], v, [], rest)
  }

  /** `{"items":1,"items":[{"id":"a","label":"b"}]}` */
  function RepeatedItems(): Value {
    Obj([], With(ITEMS, Scalar([49]), With(ITEMS, Arr([], OneItem()), MNil)))
  }

  function OneItem(): Elems {
    ECons([], Obj([], With(ID, Str([97]), With(LABEL, Str([98]), MNil))), [], ENil)
  }

  lemma StoredFirst(key: bytes, v: Value, rest: Members, name: bytes)
    requires BACKSLASH !in key
    ensures MenuAgreement.Stored(With(key, v, rest), name) ==
            var later := MenuAgreement.Stored(rest, name);
            if later.Some? then later else if key == name then Some(v) else None
  {
    hide Unescaped;
    UnescapedExact(key);
  }

  lemma OneItemDecoded()
    ensures DecodeItems(OneItem()) == Some([ActionItem([97], [98], true)])
  {
    hide MenuAgreement.Stored, With, Unescaped, Weight;
    KeysDiffer();
    UnescapedExact([97]);
    UnescapedExact([98]);
    var last := With(LABEL, Str([98]), MNil);
    var m := With(ID, Str([97]), last);
    forall name: bytes
      ensures MenuAgreement.Stored(m, name) ==
              if name == LABEL then Some(Str([98])) else if name == ID then Some(Str([97])) else None
    {
      assert MenuAgreement.Stored(MNil, name) == None by { NothingStored(name); }
      StoredFirst(LABEL, Str([98]), MNil, name);
      StoredFirst(ID, Str([97]), last, name);
    }
    assert Unescaped([97]) == [97] && Unescaped([98]) == [98];
    OneAction(m, [97], [98]);
    assert OneItem() == ECons([], Obj([], m), [], ENil) by { OneItemIs(m, last); }
    DecodeOne(Obj([], m));
  }

  lemma DecodeOne(v: Value)
    requires DecodeItem(v).Some?
    ensures DecodeItems(ECons([], v, [], ENil)) == Some([DecodeItem(v).value])
  {
    hide DecodeItem;
    var one := ECons([], v, [], ENil);
    var item := DecodeItem(v).value;
    assert DecodeItems(one.rest) == Some([]);
    assert DecodeItems(one) == Some([item] + []);
    assert [item] + [] == [item];
  }

  lemma OneItemIs(m: Members, last: Members)
    requires last == With(LABEL, Str([98]), MNil) && m == With(ID, Str([97]), last)
    ensures OneItem() == ECons([], Obj([], m), [], ENil)
  {}

  lemma OneAction(m: Members, id: bytes, title: bytes)
    requires StoredString(m, KIND) == None && StoredString(m, ID) == Some(id) && StoredString(m, LABEL) == Some(title)
    requires MenuAgreement.Stored(m, ENABLED) == None
    ensures DecodeItem(Obj([], m)) == Some(ActionItem(id, title, true))
  {
    hide MenuAgreement.Stored, StoredString, DecodeItems;
    KindsDiffer();
    assert StoredBool(m, ENABLED, true);
  }

  lemma NothingStored(name: bytes)
    ensures MenuAgreement.Stored(MNil, name) == None
  {}

  lemma RepeatedItemsDecoded()
    ensures TreeMenu(RepeatedItems()) == None
    ensures DecodePayload(RepeatedItems()) == Some([ActionItem([97], [98], true)])
  {
    hide DecodeItems, OneItem, MenuAgreement.Stored, Interpret;
    KeysDiffer();
    OneItemDecoded();
    assert MenuAgreement.Stored(MNil, ITEMS) == None by { NothingStored(ITEMS); }
    var second := With(ITEMS, Arr([], OneItem()), MNil);
    StoredFirst(ITEMS, Arr([], OneItem()), MNil, ITEMS);
    StoredFirst(ITEMS, Scalar([49]), second, ITEMS);
  }

  lemma WithWellFormed(key: bytes, v: Value, rest: Members)
    requires WellFormedRaw(key) && WellFormed(v) && WellFormedMembers(rest)
    ensures WellFormedMembers(With(key, v, rest))
  {
    hide WellFormedRaw;
  }

  lemma RepeatedItemsWellFormed()
    ensures WellFormed(RepeatedItems())
  {
    hide IsScalar, With, WellFormedRaw;
    assert IsScalar([49]) by { OneIsANumber(); }
    SingleRaw();
    KeysPlain();
    var last := With(LABEL, Str([98]), MNil);
    WithWellFormed(LABEL, Str([98]), MNil);
    WithWellFormed(ID, Str([97]), last);
    WithWellFormed(ITEMS, Arr([], OneItem()), MNil);
    WithWellFormed(ITEMS, Scalar([49]), With(ITEMS, Arr([], OneItem()), MNil));
  }

  lemma KeysPlain()
    ensures WellFormedRaw(ITEMS) && WellFormedRaw(ID) && WellFormedRaw(LABEL)
  {
    hide WellFormedRaw;
    PlainRaw(ITEMS);
    PlainRaw(ID);
    PlainRaw(LABEL);
  }

  lemma SingleRaw()
    ensures forall b: byte :: b != BACKSLASH && b != QUOTE && b >= 32 ==> WellFormedRaw([b])
  {
    forall b: byte | b != BACKSLASH && b != QUOTE && b >= 32 ensures WellFormedRaw([b]) {
      assert [b][1..] == [];
    }
  }

  lemma OneIsANumber()
    ensures IsScalar([49])
  {}

  lemma {:induction false} PlainRaw(raw: bytes)
    requires forall i :: 0 <= i < |raw| ==> raw[i] >= 97
    requires BACKSLASH !in raw
    ensures WellFormedRaw(raw)
    decreases |raw|
  {
    if raw != [] {
      PlainRaw(raw[1..]);
    }
  }

  lemma KeysDiffer()
    ensures ID != LABEL && ID != KIND && LABEL != KIND && ID != ENABLED && LABEL != ENABLED
    ensures BACKSLASH !in ITEMS && BACKSLASH !in ID && BACKSLASH !in LABEL
  {
    assert |ID| == 2 && |LABEL| == 5 && |KIND| == 4 && |ENABLED| == 7;
  }

  /** The plugin accepts this payload, from its second `items`; the builder reads the first and shows nothing.
      So after it has been set, clearing a window's own menu leaves that menu standing. */
  lemma RepeatedItemsUnshown(name: bytes, good: bytes, respawns: bool)
    requires Bar(good).Some?
    ensures var bad := Print(RepeatedItems());
            Parses(bad, RepeatedItems()) && Accepted(RepeatedItems()).Some? && Bar(bad).None?
    ensures var s := SetAppMenu(SetWindowMenu(MainWindow(name, respawns), [], good), Print(RepeatedItems()));
            var t := ClearWindowMenu(s, []);
            && LoopInvariants.Shows(s) && !s.drifted
            && t.slots[0].menuBar == Bar(good) && !t.slots[0].hasWindowMenu && !LoopInvariants.Shows(t)
  {
    hide Print, WellFormed, MenuBar, DecodePayload, TreeMenu, RepeatedItems, SetAppMenu, SetWindowMenu, ClearWindowMenu,
         MainWindow, LoopInvariants.Shows, LoopInvariants.Inv;
    var v := RepeatedItems();
    var bad := Print(v);
    RepeatedItemsDecoded();
    RepeatedItemsWellFormed();
    assert bad == [] + (bad + []) && Blank([]);
    MenuBarExact(bad, [], v, []);
    PaddedValue(bad, [], v, []);
    LoopTheorems.ClearedMenuStays(name, good, bad, respawns);
  }
}
