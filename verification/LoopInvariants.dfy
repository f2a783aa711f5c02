/** What every run of the native loop keeps. */
module LoopInvariants {
  import opened Results
  import opened Bytes
  import opened PacketCodec
  import opened LoopSpec
  import Words

  // ----- the invariant -----

  ghost predicate DistinctWindows(slots: seq<Slot>) {
    forall i, j :: 0 <= i < j < |slots| ==> slots[i].window != slots[j].window
  }

  ghost predicate DistinctNames(slots: seq<Slot>) {
    forall i, j :: 0 <= i < j < |slots| ==> slots[i].name != slots[j].name
  }

  ghost predicate LiveSlot(slot: Slot, next: Handle) {
    && 0 < slot.window < next && 0 < slot.webview < next && 0 < slot.box < next
    && Fits(slot.name)
  }

  /** At most 32 live windows with distinct handles; the primary pair, if any, belongs to one slot. */
  ghost predicate Windows(s: Loop) {
    && |s.slots| <= MAX_WINDOWS && s.next > 0
    && (forall i :: 0 <= i < |s.slots| ==> LiveSlot(s.slots[i], s.next))
    && DistinctWindows(s.slots)
    && (s.primary == 0 <==> s.primaryView == 0)
    && (s.primary != 0 ==> PrimaryIn(s.slots, s.primary, s.primaryView))
    && (!s.oddLabel ==> DistinctNames(s.slots))
  }

  /** Quit is only ever requested while no window is registered; it has been requested, after service
      termination, whenever none is; and the primary window is gone exactly from the first request on. */
  ghost predicate QuitSafe(s: Loop) {
    && (forall i :: 0 <= i < |s.calls| && s.calls[i].MainQuit? ==>
          s.calls[i].registered == 0 && i > 0 && s.calls[i - 1] == TerminateServices)
    && (s.slots == [] ==> MainQuit(0) in s.calls)
    && (s.primary == 0 <==> MainQuit(0) in s.calls)
  }

  /** Nothing accepted is lost, doubled or reordered. */
  ghost predicate DrainsConserved(s: Loop) {
    && |s.drains| <= MAX_DRAINS
    && s.accepted == s.dispatched + s.inFlight + s.drains
  }

  ghost predicate ShowsWanted(slot: Slot, wanted: Wanted) {
    && (slot.hasWindowMenu <==> slot.window in wanted.own)
    && slot.menuBar == if slot.window in wanted.own then Some(wanted.own[slot.window]) else wanted.app
  }

  /** Every live window shows its own menu if it has one, and otherwise the application menu or none. */
  ghost predicate Shows(s: Loop) {
    forall i :: 0 <= i < |s.slots| ==> ShowsWanted(s.slots[i], s.wanted)
  }

  ghost predicate MenusShown(s: Loop) {
    && s.wanted.app == (if s.appMenu.Some? then Bar(s.appMenu.value) else None)
    && (forall window :: window in s.wanted.own ==> window < s.next)
    && (!s.drifted ==> Shows(s))
  }

  ghost predicate Inv(s: Loop) {
    Windows(s) && QuitSafe(s) && DrainsConserved(s) && MenusShown(s)
  }

  // ----- window table -----

  lemma LogKeeps(s: Loop, call: Call)
    requires Inv(s) && !call.MainQuit?
    ensures Inv(Log(s, call))
  {
    hide Bar;
    var t := Log(s, call);
    assert forall i :: 0 <= i < |s.calls| ==> t.calls[i] == s.calls[i];
    assert MainQuit(0) in t.calls <==> MainQuit(0) in s.calls;
  }

  /** The primary pair belongs to one slot. */
  ghost predicate PrimaryIn(slots: seq<Slot>, primary: Handle, view: Handle) {
    exists i :: 0 <= i < |slots| && slots[i].window == primary && slots[i].webview == view
  }

  lemma WithoutKeeps(slots: seq<Slot>, i: nat, next: Handle, wanted: Wanted)
    requires i < |slots|
    ensures (forall j :: 0 <= j < |slots| ==> LiveSlot(slots[j], next)) ==>
              forall j :: 0 <= j < |Without(slots, i)| ==> LiveSlot(Without(slots, i)[j], next)
    ensures DistinctWindows(slots) ==> DistinctWindows(Without(slots, i))
    ensures DistinctNames(slots) ==> DistinctNames(Without(slots, i))
    ensures (forall j :: 0 <= j < |slots| ==> ShowsWanted(slots[j], wanted)) ==>
              forall j :: 0 <= j < |Without(slots, i)| ==> ShowsWanted(Without(slots, i)[j], wanted)
  {
    hide LiveSlot, ShowsWanted, Without;
  }

  lemma WithoutKeepsPrimary(slots: seq<Slot>, i: nat, primary: Handle, view: Handle)
    requires i < |slots| && slots[i].window != primary && PrimaryIn(slots, primary, view)
    ensures PrimaryIn(Without(slots, i), primary, view)
  {
    var k :| 0 <= k < |slots| && slots[k].window == primary && slots[k].webview == view;
    assert Without(slots, i)[if k < i then k else k - 1] == slots[k];
  }

  lemma RemoveKeepsWindows(s: Loop, window: Handle)
    requires Windows(s)
    ensures Windows(RemoveSlot(s, window))
    ensures var t := RemoveSlot(s, window);
            && (t.slots != [] && s.primary != 0 ==> t.primary != 0)
            && (s.primary == 0 || t.slots == [] ==> t.primary == 0)
  {
    hide WindowIndex, LiveSlot, PrimaryIn, DistinctWindows, DistinctNames, Without;
    if window != 0 && WindowIndex(s.slots, window).Some? {
      var i := WindowIndex(s.slots, window).value;
      WithoutKeeps(s.slots, i, s.next, s.wanted);
      var slots := Without(s.slots, i);
      if s.primary != 0 && s.primary != window {
        WithoutKeepsPrimary(s.slots, i, s.primary, s.primaryView);
        SomePrimary(slots, s.primary, s.primaryView);
      } else if s.primary == window && slots != [] {
        FirstIsPrimary(slots, s.next);
      }
    }
    if s.primary != 0 {
      SomePrimary(s.slots, s.primary, s.primaryView);
    }
  }

  lemma SomePrimary(slots: seq<Slot>, primary: Handle, view: Handle)
    requires PrimaryIn(slots, primary, view)
    ensures slots != []
  {}

  lemma FirstIsPrimary(slots: seq<Slot>, next: Handle)
    requires slots != [] && LiveSlot(slots[0], next)
    ensures slots[0].window != 0 && slots[0].webview != 0
    ensures PrimaryIn(slots, slots[0].window, slots[0].webview)
  {}

  lemma RemoveKeepsShown(s: Loop, window: Handle)
    requires MenusShown(s)
    ensures MenusShown(RemoveSlot(s, window))
  {
    hide WindowIndex, Bar, ShowsWanted, Without;
    if window != 0 && WindowIndex(s.slots, window).Some? {
      WithoutKeeps(s.slots, WindowIndex(s.slots, window).value, s.next, s.wanted);
    }
  }

  /** A destroyed window leaves the table; when it was the last one, services and main loop end. */
  lemma DestroyedKeeps(s: Loop, window: Handle)
    requires Inv(s)
    ensures Inv(WindowDestroyed(s, window))
  {
    hide Bar, RemoveSlot, Windows, MenusShown;
    RemoveKeepsWindows(s, window);
    RemoveKeepsShown(s, window);
    RemoveFrame(s, window);
    var kept := RemoveSlot(s, window);
    if kept.slots == [] {
      QuitNow(s, kept);
    }
    CallsFrame(kept, WindowDestroyed(s, window));
  }

  lemma RemoveFrame(s: Loop, window: Handle)
    ensures var t := RemoveSlot(s, window);
            && t == s.(slots := t.slots, primary := t.primary, primaryView := t.primaryView)
            && (s.slots == [] ==> t == s)
  {
    hide Without;
  }

  /** Only the call log differs. */
  lemma CallsFrame(s: Loop, t: Loop)
    requires t == s.(calls := t.calls)
    ensures Windows(s) ==> Windows(t)
    ensures MenusShown(s) ==> MenusShown(t)
  {
    hide Bar, LiveSlot, DistinctWindows, DistinctNames, PrimaryIn, ShowsWanted;
  }

  lemma QuitNow(s: Loop, t: Loop)
    requires QuitSafe(s) && t.calls == s.calls && t.slots == [] && t.primary == 0
    ensures QuitSafe(Log(Log(t, TerminateServices), MainQuit(0)))
  {
    var u := Log(Log(t, TerminateServices), MainQuit(0));
    assert u.calls == s.calls + [TerminateServices, MainQuit(0)];
    assert u.calls[|s.calls|] == TerminateServices && u.calls[|s.calls| + 1] == MainQuit(0);
  }

  lemma DestroyKeeps(s: Loop, window: Handle)
    requires Inv(s)
    ensures Inv(DestroyWidget(s, window))
  {
    hide Inv;
    LogKeeps(s, Destroy(window));
    DestroyedKeeps(Log(s, Destroy(window)), window);
  }

  lemma {:induction false} CloseDownKeeps(s: Loop, i: nat)
    requires Inv(s)
    ensures Inv(CloseDown(s, i))
    decreases i
  {
    hide Inv, DestroyWidget;
    if i > 0 {
      var window := if i - 1 < |s.slots| then s.slots[i - 1].window else 0;
      if window != 0 {
        DestroyKeeps(s, window);
        CloseDownKeeps(DestroyWidget(s, window), i - 1);
      } else {
        CloseDownKeeps(s, i - 1);
      }
    }
  }

  // ----- opening -----

  predicate Opening(s: Loop, r: Record) {
    r.kind == Words.OPEN_WINDOW && r.window != [] && r.url != [] && FindExact(s.slots, r.window).None?
  }

  /** The slot of a freshly opened window: it starts with the application menu, if there is one. */
  function NewSlot(s: Loop, name: bytes): Slot {
    var slot := Slot(Stored(name, LABEL_SIZE), s.next, s.next + 2, None, false, s.next + 1);
    if s.appMenu.Some? then ShowAppMenu(slot, s.appMenu.value) else slot
  }

  lemma OpenShape(s: Loop, r: Record)
    requires Opening(s, r)
    ensures var t := Open(s, r);
            && |t.calls| == |s.calls| + 1 && t.calls[..|s.calls|] == s.calls
            && t.calls[|s.calls|].OpenWindow? && t.calls[|s.calls|].window == s.next
            && t == s.(next := s.next + 3, oddLabel := s.oddLabel || !Fits(r.window), calls := t.calls,
                       slots := if |s.slots| < MAX_WINDOWS then s.slots + [NewSlot(s, r.window)] else s.slots)
  {
    hide FindExact, Stored, Bar, ParseInt, ParseBool, Fits;
    var slot := Slot(Stored(r.window, LABEL_SIZE), s.next, s.next + 2, None, false, s.next + 1);
    assert (s.slots + [slot])[|s.slots| := NewSlot(s, r.window)] == s.slots + [NewSlot(s, r.window)];
  }

  lemma AppendKeeps(slots: seq<Slot>, slot: Slot, next: Handle, next': Handle, wanted: Wanted)
    requires next <= next'
    requires (forall j :: 0 <= j < |slots| ==> LiveSlot(slots[j], next)) && DistinctWindows(slots)
    requires LiveSlot(slot, next') && slot.window >= next
    ensures var more := slots + [slot];
            && (forall j :: 0 <= j < |more| ==> LiveSlot(more[j], next'))
            && DistinctWindows(more)
            && (DistinctNames(more) <==> DistinctNames(slots) && forall j :: 0 <= j < |slots| ==>
                slots[j].name != slot.name)
    ensures (forall j :: 0 <= j < |slots| ==> ShowsWanted(slots[j], wanted)) && ShowsWanted(slot, wanted) ==>
              forall j :: 0 <= j < |slots + [slot]| ==> ShowsWanted((slots + [slot])[j], wanted)
  {
    hide ShowsWanted, Fits;
    var more := slots + [slot];
    assert forall j :: 0 <= j < |slots| ==> more[j] == slots[j];
    assert more[|slots|] == slot;
  }

  lemma NewSlotShown(s: Loop, name: bytes)
    requires MenusShown(s) && s.next > 0
    ensures var slot := NewSlot(s, name);
            && LiveSlot(slot, s.next + 3)
            && slot.window == s.next && slot.name == Stored(name, LABEL_SIZE)
            && ShowsWanted(slot, s.wanted)
  {
    hide Bar;
  }

  lemma OpenKeepsWindows(s: Loop, r: Record)
    requires Windows(s) && MenusShown(s) && Opening(s, r)
    ensures Windows(Open(s, r)) && MenusShown(Open(s, r))
  {
    hide Bar, Open, LiveSlot, ShowsWanted, DistinctWindows, DistinctNames, PrimaryIn, Stored, NewSlot, FindExact;
    OpenShape(s, r);
    NewSlotShown(s, r.window);
    var slot := NewSlot(s, r.window);
    AppendKeeps(s.slots, slot, s.next, s.next + 3, s.wanted);
    if s.primary != 0 {
      AppendKeepsPrimary(s.slots, slot, s.primary, s.primaryView);
    }
    LiveLater(s.slots, s.next, s.next + 3);
  }

  lemma LiveLater(slots: seq<Slot>, next: Handle, next': Handle)
    requires next <= next'
    ensures (forall j :: 0 <= j < |slots| ==> LiveSlot(slots[j], next)) ==>
              forall j :: 0 <= j < |slots| ==> LiveSlot(slots[j], next')
  {
    hide Fits;
  }

  lemma AppendKeepsPrimary(slots: seq<Slot>, slot: Slot, primary: Handle, view: Handle)
    requires PrimaryIn(slots, primary, view)
    ensures PrimaryIn(slots + [slot], primary, view)
  {
    var k :| 0 <= k < |slots| && slots[k].window == primary && slots[k].webview == view;
    assert (slots + [slot])[k] == slots[k];
  }

  lemma OpenKeeps(s: Loop, r: Record)
    requires Inv(s)
    ensures Inv(Open(s, r))
  {
    hide Windows, MenusShown, FindExact, Open, QuitSafe, NewSlot;
    if Opening(s, r) {
      OpenShape(s, r);
      OpenKeepsWindows(s, r);
      OneMoreCall(s, Open(s, r));
    } else {
      NotOpening(s, r);
    }
  }

  lemma OneMoreCall(s: Loop, t: Loop)
    requires QuitSafe(s) && |t.calls| == |s.calls| + 1 && t.calls[..|s.calls|] == s.calls &&
             !t.calls[|s.calls|].MainQuit?
    requires t.primary == s.primary && (t.slots == [] ==> s.slots == [])
    ensures QuitSafe(t)
  {
    assert t.calls == s.calls + [t.calls[|s.calls|]];
    assert forall i :: 0 <= i < |s.calls| ==> t.calls[i] == s.calls[i];
    assert MainQuit(0) in t.calls <==> MainQuit(0) in s.calls;
  }

  lemma NotOpening(s: Loop, r: Record)
    requires !Opening(s, r)
    ensures Open(s, r) == s
  {}

  // ----- menus -----

  /** Same windows, names and views; only the menus may differ. */
  ghost predicate SameTable(a: seq<Slot>, b: seq<Slot>) {
    |a| == |b| && forall i :: 0 <= i < |a| ==>
      a[i] == b[i].(menuBar := a[i].menuBar, hasWindowMenu := a[i].hasWindowMenu)
  }

  lemma SameTableKeeps(s: Loop, t: Loop)
    requires SameTable(t.slots, s.slots)
    requires t == s.(slots := t.slots, appMenu := t.appMenu, wanted := t.wanted, drifted := t.drifted)
    requires Windows(s) && QuitSafe(s) && DrainsConserved(s)
    ensures Windows(t) && QuitSafe(t) && DrainsConserved(t)
  {
    hide Fits;
    if s.primary != 0 {
      var k :| 0 <= k < |s.slots| && s.slots[k].window == s.primary && s.slots[k].webview == s.primaryView;
      assert t.slots[k].window == s.primary && t.slots[k].webview == s.primaryView;
    }
  }

  lemma SetAppMenuKeeps(s: Loop, payload: bytes)
    requires Inv(s)
    ensures Inv(SetAppMenu(s, payload))
  {
    hide Bar, Windows, QuitSafe, DrainsConserved;
    if payload != [] {
      var t := SetAppMenu(s, payload);
      SameTableKeeps(s, t);
      assert forall i :: 0 <= i < |s.slots| ==> t.slots[i] == ShowAppMenu(s.slots[i], payload);
      LiveWindows(s);
    }
  }

  lemma LiveWindows(s: Loop)
    requires Windows(s)
    ensures forall i :: 0 <= i < |s.slots| ==> 0 < s.slots[i].window < s.next
    ensures forall i, j :: 0 <= i < j < |s.slots| ==> s.slots[i].window != s.slots[j].window
  {
    assert forall i :: 0 <= i < |s.slots| ==> LiveSlot(s.slots[i], s.next);
  }

  lemma ClearAppMenuKeeps(s: Loop)
    requires Inv(s)
    ensures Inv(ClearAppMenu(s))
  {
    hide Bar, Windows, QuitSafe, DrainsConserved;
    var t := ClearAppMenu(s);
    SameTableKeeps(s, t);
    assert forall i :: 0 <= i < |s.slots| ==> t.slots[i] == HideAppMenu(s.slots[i]);
    LiveWindows(s);
  }

  lemma SetWindowMenuKeeps(s: Loop, name: bytes, payload: bytes)
    requires Inv(s)
    ensures Inv(SetWindowMenu(s, name, payload))
  {
    hide Bar, Windows, QuitSafe, DrainsConserved, Target;
    if Target(s.slots, name).Some? {
      var i := Target(s.slots, name).value;
      var t := SetWindowMenu(s, name, payload);
      SameTableKeeps(s, t);
      LiveWindows(s);
    }
  }

  lemma ClearWindowMenuKeeps(s: Loop, name: bytes)
    requires Inv(s)
    ensures Inv(ClearWindowMenu(s, name))
  {
    hide Bar, Windows, QuitSafe, DrainsConserved, Target;
    if Target(s.slots, name).Some? {
      var i := Target(s.slots, name).value;
      var t := ClearWindowMenu(s, name);
      SameTableKeeps(s, t);
      LiveWindows(s);
    }
  }
}
