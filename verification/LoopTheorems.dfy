/** Results about single operations of the native loop, and exactly when the promises of its window
    and menu handling hold. */
module LoopTheorems {
  import opened Results
  import opened Bytes
  import opened Words
  import opened PacketCodec
  import opened LoopSpec
  import opened LoopInvariants
  import opened LoopRuns

  // ----- closing all windows -----

  /** One destroy call for every slot, the last slot first. */
  function CloseCalls(slots: seq<Slot>): (calls: seq<Call>)
    ensures |calls| == |slots|
    ensures forall k :: 0 <= k < |slots| ==> calls[k] == Destroy(slots[|slots| - 1 - k].window)
  {
    if slots == [] then []
    else [Destroy(slots[|slots| - 1].window)] + CloseCalls(slots[..|slots| - 1])
  }

  const FAREWELL: seq<Call> := [TerminateServices, MainQuit(0)]

  lemma DestroyLast(s: Loop)
    requires Windows(s) && s.slots != []
    ensures var slots := s.slots[..|s.slots| - 1];
            var last := s.slots[|s.slots| - 1].window;
            var t := DestroyWidget(s, last);
            && last != 0
            && t.slots == slots
            && t.calls == s.calls + [Destroy(last)] + (if slots == [] then FAREWELL else [])
            && t == s.(slots := t.slots, primary := t.primary, primaryView := t.primaryView, calls := t.calls)
            && (slots == [] ==> t.primary == 0 && t.primaryView == 0)
            && Windows(t)
  {
    hide WindowIndex, Windows, Without;
    var last := s.slots[|s.slots| - 1].window;
    LiveWindows(s);
    var logged := Log(s, Destroy(last));
    CallsFrame(s, logged);
    RemoveKeepsWindows(logged, last);
    assert WindowIndex(s.slots, last) == Some(|s.slots| - 1);
    assert Without(s.slots, |s.slots| - 1) == s.slots[..|s.slots| - 1];
    CallsFrame(RemoveSlot(logged, last), DestroyWidget(s, last));
    PrimaryPair(DestroyWidget(s, last));
  }

  lemma PrimaryPair(s: Loop)
    requires Windows(s)
    ensures s.primary == 0 <==> s.primaryView == 0
  {}

  /** The downward loop over the shrinking table destroys every window exactly once, last slot first,
      leaves no slot and no primary window, and asks for service termination and quit at the very end. */
  lemma {:induction false} CloseDownExact(s: Loop, i: nat)
    requires Windows(s) && i == |s.slots|
    ensures var t := CloseDown(s, i);
            && t.slots == []
            && t.calls == s.calls + CloseCalls(s.slots) + (if i == 0 then [] else FAREWELL)
            && t == s.(slots := [], primary := t.primary, primaryView := t.primaryView, calls := t.calls)
            && (if i > 0 then t.primary == 0 && t.primaryView == 0 else t == s)
    decreases i
  {
    hide Windows, DestroyWidget;
    if i > 0 {
      DestroyLast(s);
      var last := s.slots[i - 1].window;
      var t := DestroyWidget(s, last);
      CloseDownExact(t, i - 1);
      assert CloseCalls(s.slots) == [Destroy(last)] + CloseCalls(t.slots);
    } else {
      assert s.calls + [] + [] == s.calls;
    }
  }

  lemma CloseAllExact(s: Loop)
    requires Inv(s)
    ensures var t := CloseAll(s);
            && t.slots == [] && t.primary == 0
            && t.calls == s.calls + CloseCalls(s.slots) + (if s.slots == [] then [] else FAREWELL)
            && forall a, b :: 0 <= a < b < |s.slots| ==> CloseCalls(s.slots)[a] != CloseCalls(s.slots)[b]
  {
    hide DrainsConserved, MenusShown, CloseDown;
    CloseDownExact(s, |s.slots|);
    LiveWindows(s);
    if s.slots == [] && s.primary != 0 {
      SomePrimary(s.slots, s.primary, s.primaryView);
    }
  }

  // ----- the six passes -----

  /** The pass that carries out records of this kind. */
  function PassOf(r: Record): Option<Pass> {
    if r.kind == EVALUATE_SCRIPT then Some(Scripts)
    else if r.kind == DRAIN_BRIDGE_WINDOW then Some(Drains)
    else if r.kind == OPEN_WINDOW then Some(Opens)
    else if r.kind == CLOSE_WINDOW || r.kind == WINDOW_CONTROL then Some(Controls)
    else if r.kind == NAVIGATE_WINDOW then Some(Navigations)
    else if r.kind == DESKTOP_SHELL then Some(Shell)
    else None
  }

  function Rank(pass: Pass): nat {
    match pass
    case Scripts => 0
    case Drains => 1
    case Opens => 2
    case Controls => 3
    case Navigations => 4
    case Shell => 5
  }

  /** A pass does nothing on a record of another pass. */
  lemma StepIgnores(pass: Pass, p: Progress, r: Record)
    requires PassOf(r) != Some(pass)
    ensures Step(pass, p, r) == p
  {
    hide Target, DestroyWidget, ControlCall, RegisterDrain;
  }

  function Select(pass: Pass, records: seq<Record>): seq<Record> {
    if records == [] then []
    else (if PassOf(records[0]) == Some(pass) then [records[0]] else []) + Select(pass, records[1..])
  }

  lemma {:induction false} StepsSelect(pass: Pass, p: Progress, records: seq<Record>)
    ensures Steps(pass, p, records) == Steps(pass, p, Select(pass, records))
    decreases |records|
  {
    hide Step, PassOf;
    if records != [] {
      StepsSelect(pass, Step(pass, p, records[0]), records[1..]);
      var rest := Select(pass, records[1..]);
      if PassOf(records[0]) != Some(pass) {
        StepIgnores(pass, p, records[0]);
        assert Select(pass, records) == rest;
      } else {
        assert Select(pass, records) == [records[0]] + rest;
        assert ([records[0]] + rest)[1..] == rest;
      }
    }
  }

  /** The positions of a pass's records, ascending. */
  function Positions(pass: Pass, records: seq<Record>): seq<nat> {
    if records == [] then []
    else
      var last := |records| - 1;
      Positions(pass, records[..last]) + if PassOf(records[last]) == Some(pass) then [last] else []
  }

  lemma {:induction false} PositionsExact(pass: Pass, records: seq<Record>)
    ensures forall a :: 0 <= a < |Positions(pass, records)| ==> Positions(pass, records)[a] < |records|
    ensures forall a, b :: 0 <= a < b < |Positions(pass, records)| ==>
              Positions(pass, records)[a] < Positions(pass, records)[b]
    ensures forall i: nat :: i in Positions(pass, records) <==> i < |records| && PassOf(records[i]) == Some(pass)
    decreases |records|
  {
    hide PassOf;
    if records != [] {
      var init := records[..|records| - 1];
      PositionsExact(pass, init);
      assert forall i: nat :: i < |init| ==> init[i] == records[i];
    }
  }

  /** Every position visited by the six passes one after the other. */
  function VisitOrder(records: seq<Record>): seq<nat> {
    Positions(Scripts, records) + Positions(Drains, records) + Positions(Opens, records)
    + Positions(Controls, records) + Positions(Navigations, records) + Positions(Shell, records)
  }

  /** Position i is visited before position j. */
  predicate Before(records: seq<Record>, i: nat, j: nat)
    requires i < |records| && j < |records|
  {
    && PassOf(records[i]).Some? && PassOf(records[j]).Some?
    && var a, b := Rank(PassOf(records[i]).value), Rank(PassOf(records[j]).value);
       a < b || (a == b && i < j)
  }

  /** Entry `a` of the order is visited before entry `b`. */
  ghost predicate EntriesOrdered(records: seq<Record>, order: seq<nat>, a: nat, b: nat) {
    a < b < |order| ==> order[a] < |records| && order[b] < |records| && Before(records, order[a], order[b])
  }

  /** No position before an earlier one, and none twice. */
  ghost predicate InVisitOrder(records: seq<Record>, order: seq<nat>) {
    forall a: nat, b: nat :: EntriesOrdered(records, order, a, b)
  }

  /** `order` lists positions of the passes up to `rank`, strictly in visiting order. */
  ghost predicate Ordered(records: seq<Record>, order: seq<nat>, rank: int) {
    && (forall i: nat :: i in order <==>
          i < |records| && PassOf(records[i]).Some? && Rank(PassOf(records[i]).value) <= rank)
    && InVisitOrder(records, order)
  }

  lemma ExtendOrder(records: seq<Record>, order: seq<nat>, pass: Pass)
    requires Ordered(records, order, Rank(pass) - 1)
    ensures Ordered(records, order + Positions(pass, records), Rank(pass))
  {
    hide PassOf, Positions, InVisitOrder;
    PositionsExact(pass, records);
    var more := Positions(pass, records);
    RanksBelow(records, order, more, pass);
    forall i: nat
      ensures i in order + more <==>
              i < |records| && PassOf(records[i]).Some? && Rank(PassOf(records[i]).value) <= Rank(pass)
    {
      assert i in order + more <==> i in order || i in more;
      RankIsInjective(records, i, pass);
    }
  }

  lemma RankIsInjective(records: seq<Record>, i: nat, pass: Pass)
    ensures i < |records| && PassOf(records[i]).Some? ==>
              (Rank(PassOf(records[i]).value) <= Rank(pass) <==>
               Rank(PassOf(records[i]).value) <= Rank(pass) - 1 || PassOf(records[i]) == Some(pass))
  {
    hide PassOf;
    if i < |records| && PassOf(records[i]).Some? {
      assert PassOf(records[i]) == Some(PassOf(records[i]).value);
      RanksDiffer(PassOf(records[i]).value, pass);
    }
  }

  lemma RanksDiffer(pass: Pass, other: Pass)
    ensures Rank(pass) == Rank(other) ==> pass == other
  {}

  /** What one pass visits, ascending, goes behind everything of the passes before it. */
  lemma RanksBelow(records: seq<Record>, order: seq<nat>, more: seq<nat>, pass: Pass)
    requires InVisitOrder(records, order)
    requires forall i: nat :: i in order ==>
             i < |records| && PassOf(records[i]).Some? && Rank(PassOf(records[i]).value) < Rank(pass)
    requires forall i: nat :: i in more ==> i < |records| && PassOf(records[i]) == Some(pass)
    requires forall a, b :: 0 <= a < b < |more| ==> more[a] < more[b]
    ensures InVisitOrder(records, order + more)
  {
    hide PassOf, Before;
    var longer := order + more;
    forall a: nat, b: nat ensures EntriesOrdered(records, longer, a, b) {
      if a < b < |order| {
        assert EntriesOrdered(records, order, a, b);
      } else if a < b < |longer| {
        assert longer[b] == more[b - |order|] && more[b - |order|] in more;
        assert longer[a] == if a < |order| then order[a] else more[a - |order|];
        assert longer[a] in (if a < |order| then order else more);
        ComesBefore(records, longer[a], longer[b]);
      }
    }
  }

  lemma ComesBefore(records: seq<Record>, i: nat, j: nat)
    requires i < |records| && j < |records| && PassOf(records[i]).Some? && PassOf(records[j]).Some?
    requires var a, b := Rank(PassOf(records[i]).value), Rank(PassOf(records[j]).value); a < b || (a == b && i < j)
    ensures Before(records, i, j)
  {}

  /** The six passes visit a stable partition of the packet: every record of a known kind at exactly
      one point of the order, records of other kinds nowhere, scripts before drains before opens before
      controls before navigations before shell actions, and packet order inside each group. */
  lemma StablePartition(records: seq<Record>)
    ensures var order := VisitOrder(records);
            && (forall i: nat :: i in order <==> i < |records| && PassOf(records[i]).Some?)
            && InVisitOrder(records, order)
  {
    hide PassOf, Positions, Before, Ordered;
    var order := [];
    assert Ordered(records, order, -1) by { NothingOrdered(records); }
    ExtendOrder(records, order, Scripts);
    assert [] + Positions(Scripts, records) == Positions(Scripts, records);
    order := Positions(Scripts, records);
    ExtendOrder(records, order, Drains);
    order := order + Positions(Drains, records);
    ExtendOrder(records, order, Opens);
    order := order + Positions(Opens, records);
    ExtendOrder(records, order, Controls);
    order := order + Positions(Controls, records);
    ExtendOrder(records, order, Navigations);
    order := order + Positions(Navigations, records);
    ExtendOrder(records, order, Shell);
    order := order + Positions(Shell, records);
    AllOrdered(records, order);
  }

  lemma NothingOrdered(records: seq<Record>)
    ensures Ordered(records, [], -1)
  {}

  lemma AllOrdered(records: seq<Record>, order: seq<nat>)
    requires Ordered(records, order, 5)
    ensures forall i: nat :: i in order <==> i < |records| && PassOf(records[i]).Some?
    ensures InVisitOrder(records, order)
  {
    hide PassOf;
  }

  lemma {:induction false} SelectPositions(pass: Pass, records: seq<Record>)
    ensures |Select(pass, records)| == |Positions(pass, records)|
    ensures forall a :: 0 <= a < |Positions(pass, records)| ==>
              Positions(pass, records)[a] < |records| &&
                Select(pass, records)[a] == records[Positions(pass, records)[a]]
    decreases |records|
  {
    hide PassOf;
    if records != [] {
      var init := records[..|records| - 1];
      SelectPositions(pass, init);
      SelectAppend(pass, init, records[|records| - 1]);
      assert init + [records[|records| - 1]] == records;
    }
  }

  lemma {:induction false} SelectAppend(pass: Pass, records: seq<Record>, r: Record)
    ensures Select(pass, records + [r]) == Select(pass, records) + (if PassOf(r) == Some(pass) then [r] else [])
    decreases |records|
  {
    hide PassOf;
    if records == [] {
      assert [] + [r] == [r] && [r][1..] == [];
    } else {
      SelectAppend(pass, records[1..], r);
      assert (records + [r])[1..] == records[1..] + [r] && (records + [r])[0] == records[0];
      var first := if PassOf(records[0]) == Some(pass) then [records[0]] else [];
      var last := if PassOf(r) == Some(pass) then [r] else [];
      assert first + (Select(pass, records[1..]) + last) == (first + Select(pass, records[1..])) + last;
    }
  }

  /** Carrying out a packet is the six passes over the records of their own kinds; the scripts and the
      controls run because there is a primary window, the navigations unless the controls closed the
      last one. */
  lemma OperationsByKind(s: Loop, packet: bytes)
    requires Inv(s) && s.primary != 0
    ensures var records := Visited(packet, LINUX_STATUSES);
            var s1 := Steps(Scripts, Progress(s, false), Select(Scripts, records)).s;
            var s2 := Steps(Drains, Progress(s1, false), Select(Drains, records)).s;
            var s3 := Steps(Opens, Progress(s2, false), Select(Opens, records)).s;
            var s4 := Steps(Controls, Progress(s3, false), Select(Controls, records)).s;
            var s5 := if s4.slots == [] then s4
                      else Steps(Navigations, Progress(s4, false), Select(Navigations, records)).s;
            ApplyOperations(s, packet) == Steps(Shell, Progress(s5, false), Select(Shell, records)).s
  {
    hide Inv, Steps, Visited, Select, Onward;
    var records := Visited(packet, LINUX_STATUSES);
    var s1 := ApplyPass(Scripts, s, packet);
    var s2 := ApplyPass(Drains, s1, packet);
    var s3 := ApplyPass(Opens, s2, packet);
    var s4 := ApplyPass(Controls, s3, packet);
    var s5 := ApplyPass(Navigations, s4, packet);
    PrimaryExists(s);
    StepsSelect(Scripts, Progress(s, false), records);
    PassKeeps(Scripts, s, packet);
    PassKeepsPrimary(Scripts, s, packet);
    StepsSelect(Drains, Progress(s1, false), records);
    PassKeeps(Drains, s1, packet);
    PassKeepsPrimary(Drains, s1, packet);
    StepsSelect(Opens, Progress(s2, false), records);
    PassKeeps(Opens, s2, packet);
    PassKeepsPrimary(Opens, s2, packet);
    PrimaryExists(s3);
    StepsSelect(Controls, Progress(s3, false), records);
    PassKeeps(Controls, s3, packet);
    LivePrimary(s3);
    PrimaryUnlessEmpty(Controls, Progress(s3, false), records);
    PrimaryExists(s4);
    StepsSelect(Navigations, Progress(s4, false), records);
    StepsSelect(Shell, Progress(s5, false), records);
  }

  lemma PrimaryExists(s: Loop)
    requires Inv(s)
    ensures s.primary == 0 <==> s.primaryView == 0
    ensures s.primary != 0 ==> s.slots != []
  {}

  lemma {:induction false} StepsKeepPrimary(pass: Pass, p: Progress, records: seq<Record>)
    requires pass == Scripts || pass == Drains || pass == Opens
    ensures Steps(pass, p, records).s.primary == p.s.primary && Steps(pass, p, records).s.primaryView == p.s.primaryView
    decreases |records|
  {
    hide Open, Target;
    if records != [] {
      if pass == Opens && Opening(p.s, records[0]) {
        OpenShape(p.s, records[0]);
      } else if pass == Opens {
        NotOpening(p.s, records[0]);
      }
      StepsKeepPrimary(pass, Step(pass, p, records[0]), records[1..]);
    }
  }

  lemma PassKeepsPrimary(pass: Pass, s: Loop, packet: bytes)
    requires pass == Scripts || pass == Drains || pass == Opens
    ensures ApplyPass(pass, s, packet).primary == s.primary && ApplyPass(pass, s, packet).primaryView == s.primaryView
  {
    hide Visited, Steps;
    StepsKeepPrimary(pass, Progress(s, false), Visited(packet, LINUX_STATUSES));
  }

  /** The table is empty or there is a primary window. */
  ghost predicate Orderly(s: Loop) {
    s.primary != 0 || s.slots == []
  }

  lemma LivePrimary(s: Loop)
    requires s.primary != 0
    ensures Orderly(s)
  {}

  lemma DestroyOrderly(s: Loop, window: Handle)
    requires Inv(s) && Orderly(s)
    ensures Orderly(DestroyWidget(s, window)) && Orderly(WindowDestroyed(s, window))
  {
    hide RemoveSlot, DrainsConserved, MenusShown, QuitSafe;
    var logged := Log(s, Destroy(window));
    CallsFrame(s, logged);
    RemoveKeepsWindows(s, window);
    RemoveKeepsWindows(logged, window);
    RemoveFrame(s, window);
    RemoveFrame(logged, window);
  }

  /** Controls leave a primary window as long as they leave a window at all. */
  lemma {:induction false} PrimaryUnlessEmpty(pass: Pass, p: Progress, records: seq<Record>)
    requires pass == Controls && Inv(p.s) && Orderly(p.s)
    ensures Orderly(Steps(pass, p, records).s)
    decreases |records|
  {
    hide Inv, Target, DestroyWidget, ControlCall;
    if records != [] {
      var r := records[0];
      StepKeeps(pass, p, r);
      if Target(p.s.slots, r.window).Some? {
        DestroyOrderly(p.s, p.s.slots[Target(p.s.slots, r.window).value].window);
      }
      PrimaryUnlessEmpty(pass, Step(pass, p, r), records[1..]);
    }
  }

  // ----- exactly when the primary window is live -----

  /** In every run the primary window is a live window exactly until quit is first requested; from then
      on there is none, even if windows are opened again. */
  lemma PrimaryLiveExact(name: bytes, packet: bytes, respawns: bool, events: seq<Event>, dispatch: Dispatch)
    ensures var s := Run(Start(name, packet, respawns), events, dispatch);
            PrimaryIn(s.slots, s.primary, s.primaryView) <==> MainQuit(0) !in s.calls
  {
    hide Run, Start, DrainsConserved, MenusShown;
    RunKeeps(name, packet, respawns, events, dispatch);
    var s := Run(Start(name, packet, respawns), events, dispatch);
    if s.primary == 0 && PrimaryIn(s.slots, s.primary, s.primaryView) {
      LiveWindows(s);
    }
  }

  /** A window opened after the last one has gone is live, but there is no primary window, and every
      later message is ignored. */
  lemma LateWindowIsDeaf(s: Loop, r: Record, packet: bytes, dispatch: Dispatch)
    requires Inv(s) && s.slots == [] && r.kind == OPEN_WINDOW && r.window != [] && r.url != []
    ensures var t := Open(s, r);
            |t.slots| == 1 && t.primary == 0 && HandleMessage(t, packet, dispatch) == t
  {
    hide Open, MenusShown, DrainsConserved, QuitSafe, NewSlot;
    OpenShape(s, r);
    OpenKeeps(s, r);
    if s.primary != 0 {
      SomePrimary(s.slots, s.primary, s.primaryView);
    }
  }

  // ----- exactly when labels stay distinct -----

  /** Opening a window keeps the labels distinct exactly when the label, cut to the label buffer, is not
      yet in the table; a label that fits the buffer never is. */
  lemma OpenKeepsNamesExact(s: Loop, r: Record)
    requires Inv(s) && DistinctNames(s.slots) && Opening(s, r) && |s.slots| < MAX_WINDOWS
    ensures DistinctNames(Open(s, r).slots) <==>
            forall i :: 0 <= i < |s.slots| ==> s.slots[i].name != Stored(r.window, LABEL_SIZE)
    ensures Fits(r.window) ==> DistinctNames(Open(s, r).slots)
  {
    hide Open, NewSlot, QuitSafe, DrainsConserved;
    OpenShape(s, r);
    NewSlotShown(s, r.window);
    LiveLater(s.slots, s.next, s.next + 3);
    AppendKeeps(s.slots, NewSlot(s, r.window), s.next, s.next + 3, s.wanted);
  }

  /** A window whose label does not fit the buffer is never found by its label: opening it again opens
      a second window under the same stored label. */
  lemma OddLabelOpensTwice(s: Loop, r: Record)
    requires Inv(s) && !Fits(r.window) && r.kind == OPEN_WINDOW && r.window != [] && r.url != []
    requires |s.slots| + 2 <= MAX_WINDOWS
    ensures var t := Open(Open(s, r), r);
            && |t.slots| == |s.slots| + 2
            && t.slots[|s.slots|].name == t.slots[|s.slots| + 1].name == Stored(r.window, LABEL_SIZE)
  {
    hide Open, NewSlot, QuitSafe, DrainsConserved, Stored;
    OddLabelMissing(s, r.window);
    OpenShape(s, r);
    NewSlotShown(s, r.window);
    OpenKeeps(s, r);
    var t := Open(s, r);
    OddLabelMissing(t, r.window);
    OpenShape(t, r);
    NewSlotShown(t, r.window);
  }

  lemma OddLabelMissing(s: Loop, name: bytes)
    requires Inv(s) && !Fits(name)
    ensures FindExact(s.slots, name).None?
  {
    hide FindExact, QuitSafe, DrainsConserved, MenusShown;
    assert forall i :: 0 <= i < |s.slots| ==> LiveSlot(s.slots[i], s.next) && Fits(s.slots[i].name);
  }

  // ----- exactly when a menu operation shows what was asked for -----

  /** Setting the application menu shows it on every window without a menu of its own exactly when the
      payload gives a menu, or no such window shows anything. */
  lemma SetAppMenuExact(s: Loop, payload: bytes)
    requires Inv(s) && Shows(s) && payload != []
    ensures Shows(SetAppMenu(s, payload)) <==> AppMenuFits(s.slots, payload)
  {
    hide Bar, Windows, QuitSafe, DrainsConserved;
    var t := SetAppMenu(s, payload);
    assert forall i :: 0 <= i < |s.slots| ==> t.slots[i] == ShowAppMenu(s.slots[i], payload);
    LiveWindows(s);
    assert forall i :: 0 <= i < |s.slots| ==> ShowsWanted(s.slots[i], s.wanted);
    if Bar(payload).None? {
      assert forall i :: 0 <= i < |s.slots| ==> t.slots[i] == s.slots[i];
    }
  }

  /** Setting a window menu keeps every window on what was asked for exactly when the payload gives a
      menu, or there is no window, or the window has its own menu already. */
  lemma SetWindowMenuExact(s: Loop, name: bytes, payload: bytes)
    requires Inv(s) && Shows(s)
    ensures Shows(SetWindowMenu(s, name, payload)) <==> WindowMenuFits(s.slots, name, payload)
  {
    hide Bar, Windows, QuitSafe, DrainsConserved, Target;
    if Target(s.slots, name).Some? {
      var i := Target(s.slots, name).value;
      var t := SetWindowMenu(s, name, payload);
      LiveWindows(s);
      assert ShowsWanted(s.slots[i], s.wanted);
      assert t.slots[i].hasWindowMenu;
    }
  }

  /** Clearing a window's own menu brings the application menu back exactly when there is no window, or
      no application payload, or that payload gives a menu, or the window shows no bar anyway. */
  lemma ClearWindowMenuExact(s: Loop, name: bytes)
    requires Inv(s) && Shows(s)
    ensures Shows(ClearWindowMenu(s, name)) <==> ClearFits(s.slots, name, s.appMenu)
  {
    hide Bar, Windows, QuitSafe, DrainsConserved, Target;
    if Target(s.slots, name).Some? {
      var i := Target(s.slots, name).value;
      var t := ClearWindowMenu(s, name);
      LiveWindows(s);
      assert forall k :: 0 <= k < |s.slots| ==> ShowsWanted(s.slots[k], s.wanted);
      assert t.slots[i] == ClearedSlot(s, i);
      assert forall k :: 0 <= k < |s.slots| && k != i ==> t.slots[k] == s.slots[k];
    }
  }

  function ClearedSlot(s: Loop, i: nat): Slot
    requires i < |s.slots|
  {
    var slot := s.slots[i].(hasWindowMenu := false);
    if s.appMenu.Some? then SetBar(slot, s.appMenu.value) else slot.(menuBar := None)
  }

  lemma ClearAppMenuExact(s: Loop)
    requires Inv(s) && Shows(s)
    ensures Shows(ClearAppMenu(s))
  {
    hide Bar, Windows, QuitSafe, DrainsConserved;
    var t := ClearAppMenu(s);
    assert forall i :: 0 <= i < |s.slots| ==> t.slots[i] == HideAppMenu(s.slots[i]);
    LiveWindows(s);
  }

  /** A window's menu survives being cleared: set it, set an application menu that is none, clear. The
      first two steps meet their conditions; the third does not, and the old bar stays. */
  lemma ClearedMenuStays(name: bytes, good: bytes, bad: bytes, respawns: bool)
    requires bad != [] && Bar(good).Some? && Bar(bad).None?
    ensures var s := SetAppMenu(SetWindowMenu(MainWindow(name, respawns), [], good), bad);
            var t := ClearWindowMenu(s, []);
            && Inv(s) && Shows(s) && !s.drifted
            && t.slots[0].menuBar == Bar(good) && !t.slots[0].hasWindowMenu && t.wanted == Wanted(None, map[])
            && !Shows(t)
  {
    hide Bar, Inv, CString, Stored;
    var m := MainWindow(name, respawns);
    MainWindowHolds(name, respawns);
    SetWindowMenuKeeps(m, [], good);
    SetAppMenuKeeps(SetWindowMenu(m, [], good), bad);
  }

  /** As long as no step has drifted, the next one - any record in any pass - keeps every window on what
      was asked for exactly when it does not drift, that is, when it meets the condition of its kind. */
  lemma StepShowsExact(pass: Pass, p: Progress, r: Record)
    requires Inv(p.s) && !p.s.drifted
    ensures Shows(Step(pass, p, r).s) <==> !Step(pass, p, r).s.drifted
  {
    hide Windows, QuitSafe, DrainsConserved, Shows, Target, ClearFits, AppMenuFits, WindowMenuFits, Bar, ParseInt;
    StepKeeps(pass, p, r);
    var s, t := p.s, Step(pass, p, r).s;
    assert Inv(s) && Shows(s) && (!t.drifted ==> Shows(t));
    if pass == Shell {
      ShellShowsExact(s, r);
    } else {
      OthersNeverDrift(pass, p, r);
    }
  }

  lemma OthersNeverDrift(pass: Pass, p: Progress, r: Record)
    requires pass != Shell
    ensures Step(pass, p, r).s.drifted == p.s.drifted
  {
    hide Target, Bar, ParseInt, FindExact, Stored, RemoveSlot, ControlCall, Fits;
    if pass == Controls && Target(p.s.slots, r.window).Some? {
      RemoveFrame(Log(p.s, Destroy(p.s.slots[Target(p.s.slots, r.window).value].window)),
                  p.s.slots[Target(p.s.slots, r.window).value].window);
    }
    if pass == Opens && Opening(p.s, r) {
      OpenShape(p.s, r);
    }
  }

  lemma ShellShowsExact(s: Loop, r: Record)
    requires Inv(s) && !s.drifted && Shows(s)
    ensures ShellAction(s, r).drifted ==> !Shows(ShellAction(s, r))
  {
    hide Inv, Shows, Target, ClearFits, AppMenuFits, WindowMenuFits, Bar, CloseDown;
    if r.url != [] {
      SetAppMenuExact(s, r.url);
    }
    SetWindowMenuExact(s, r.window, r.url);
    ClearWindowMenuExact(s, r.window);
    CloseDownNeverDrifts(s, |s.slots|);
  }

  lemma {:induction false} CloseDownNeverDrifts(s: Loop, i: nat)
    ensures CloseDown(s, i).drifted == s.drifted
    decreases i
  {
    hide RemoveSlot;
    if i > 0 {
      var window := if i - 1 < |s.slots| then s.slots[i - 1].window else 0;
      RemoveFrame(Log(s, Destroy(window)), window);
      CloseDownNeverDrifts(if window != 0 then DestroyWidget(s, window) else s, i - 1);
    }
  }

  /** So over the records of a pass: no drift at the end exactly when the windows showed what was asked
      for after every record. */
  lemma {:induction false} RecordsShowExact(pass: Pass, p: Progress, records: seq<Record>)
    requires Inv(p.s) && !p.s.drifted
    ensures !Steps(pass, p, records).s.drifted <==>
            forall k :: 0 <= k <= |records| ==> Shows(Steps(pass, p, records[..k]).s)
    decreases |records|
  {
    hide Step, Inv, Shows, Onward;
    assert Shows(p.s) by { NoDriftShows(p.s); }
    assert records[..0] == [] && records[..|records|] == records;
    if records != [] {
      var q := Step(pass, p, records[0]);
      StepKeeps(pass, p, records[0]);
      StepShowsExact(pass, p, records[0]);
      forall k | 0 < k <= |records|
        ensures Steps(pass, p, records[..k]) == Steps(pass, q, records[1..][..k - 1])
      {
        assert records[..k][1..] == records[1..][..k - 1];
      }
      assert Steps(pass, q, records[1..][..0]) == q;
      if q.s.drifted {
        StepsKeep(pass, q, records[1..]);
        assert Steps(pass, p, records).s.drifted by { DriftStays(q.s, Steps(pass, q, records[1..]).s); }
        assert Steps(pass, p, records[..1]) == q;
      } else {
        RecordsShowExact(pass, q, records[1..]);
        var rest := records[1..];
        assert forall k :: 0 <= k <= |rest| ==> Steps(pass, q, rest[..k]) == Steps(pass, p, records[..k + 1]);
      }
    }
  }

  lemma NoDriftShows(s: Loop)
    requires Inv(s) && !s.drifted
    ensures Shows(s)
  {}

  lemma DriftStays(s: Loop, t: Loop)
    requires Onward(s, t) && s.drifted
    ensures t.drifted
  {}

  /** The menu overlay in every run: while every menu step meets the condition of its kind, every live
      window shows its own menu if it has one set, and otherwise the application menu or none. */
  lemma RunShows(name: bytes, packet: bytes, respawns: bool, events: seq<Event>, dispatch: Dispatch)
    ensures var s := Run(Start(name, packet, respawns), events, dispatch);
            !s.drifted ==> Shows(s)
  {
    hide Run, Start, Inv, Shows;
    RunKeeps(name, packet, respawns, events, dispatch);
    var s := Run(Start(name, packet, respawns), events, dispatch);
    if !s.drifted {
      NoDriftShows(s);
    }
  }
}
