/** The bridge context of the Linux backend: fixed arrays, counters and loops, proved to carry out
    exactly the functions of LoopSpec. */
module BridgeContext {
  import opened Results
  import opened Bytes
  import opened Words
  import opened PacketCodec
  import opened PacketReader
  import opened HandoffScript
  import opened RecordReader
  import MenuBuilder
  import MenuReader
  import opened LoopSpec
  import opened LoopInvariants
  import LoopRuns

  class Context {
    const windows: array<Slot>
    var windowCount: nat
    var liveWindows: nat
    const drainRequests: array<Drain>
    var drainRequestCount: nat
    var window: Handle
    var webview: Handle
    var appMenuPayload: Option<bytes>
    var nextHandle: Handle
    const respawns: bool
    var calls: seq<Call>
    ghost var accepted: seq<Drain>
    var dispatched: seq<Drain>
    var inFlight: seq<Drain>
    ghost var wanted: Wanted
    ghost var drifted: bool
    ghost var oddLabel: bool

    /** The two counters agree, every counted slot has a window, and the unused tail is all zero. */
    ghost predicate Valid()
      reads this, windows
    {
      && windows.Length == MAX_WINDOWS && drainRequests.Length == MAX_DRAINS
      && windowCount <= MAX_WINDOWS && liveWindows == windowCount
      && drainRequestCount <= MAX_DRAINS
      && (forall i :: 0 <= i < windowCount ==> windows[i].window != 0)
      && (forall i :: windowCount <= i < MAX_WINDOWS ==> windows[i] == EMPTY_SLOT)
    }

    ghost function State(): Loop
      requires Valid()
      reads this, windows, drainRequests
    {
      Loop(windows[..windowCount], window, webview, drainRequests[..drainRequestCount], appMenuPayload,
           nextHandle, respawns, calls, accepted, dispatched, inFlight, wanted, drifted, oddLabel)
    }

    constructor (name: bytes, respawns: bool)
      ensures Valid() && fresh(windows) && fresh(drainRequests)
      ensures State() == MainWindow(name, respawns)
    {
      this.respawns := respawns;
      windows := new Slot[MAX_WINDOWS](_ => EMPTY_SLOT);
      drainRequests := new Drain[MAX_DRAINS](_ => Drain([], []));
      windowCount, liveWindows, drainRequestCount := 0, 0, 0;
      window, webview, nextHandle := 1, 2, 4;
      appMenuPayload := None;
      calls, accepted, dispatched, inFlight := [], [], [], [];
      wanted := Wanted(None, map[]);
      drifted := false;
      oddLabel := !Fits(CString(name));
      new;
      RegisterWindowSlot(CString(name), 1, 3, 2);
    }

    // ----- window slots -----

    method FindWindowSlotExact(name: bytes) returns (r: Option<nat>)
      requires Valid()
      ensures r == FindExact(State().slots, name)
    {
      hide FindExact;
      var i := 0;
      ghost var slots := windows[..windowCount];
      while i < windowCount
        invariant i <= windowCount
        invariant forall k :: 0 <= k < i && name != [] ==> slots[k].name != name
      {
        if name != [] && windows[i].name == name {
          FindIsFirst(slots, name, i);
          return Some(i);
        }
        i := i + 1;
      }
      return None;
    }

    method FindWindowSlot(name: bytes) returns (r: Option<nat>)
      requires Valid()
      ensures r == Target(State().slots, name)
    {
      r := FindWindowSlotExact(name);
      if r.None? {
        r := if windowCount > 0 then Some(0) else None;
      }
    }

    method RegisterWindowSlot(name: bytes, window: Handle, box: Handle, webview: Handle)
      requires Valid() && window != 0
      modifies this, windows
      ensures Valid() && State() == Register(old(State()), name, window, box, webview)
    {
      var existing := FindWindowSlotExact(name);
      if existing.Some? {
        var i := existing.value;
        // A counted slot always has its window, so the live counter is right already.
        windows[i] := windows[i].(window := window, box := box, webview := webview);
        return;
      }
      if windowCount >= MAX_WINDOWS {
        return;
      }
      // The rest of the slot is zero already, its menu flag included.
      windows[windowCount] := windows[windowCount].(
        name := Stored(name, LABEL_SIZE), window := window, box := box, webview := webview);
      windowCount := windowCount + 1;
      liveWindows := liveWindows + 1;
    }

    method IndexOfWindow(window: Handle) returns (r: Option<nat>)
      requires Valid()
      ensures r == WindowIndex(State().slots, window)
    {
      hide WindowIndex;
      var i := 0;
      ghost var slots := windows[..windowCount];
      while i < windowCount
        invariant i <= windowCount
        invariant forall k :: 0 <= k < i ==> slots[k].window != window
      {
        if windows[i].window == window {
          assert slots[i].window == window;
          return Some(i);
        }
        i := i + 1;
      }
      return None;
    }

    method RemoveWindowSlot(window: Handle)
      requires Valid()
      modifies this, windows
      ensures Valid() && State() == RemoveSlot(old(State()), window)
    {
      hide WindowIndex, Without;
      if window == 0 {
        return;
      }
      var found := IndexOfWindow(window);
      if found.None? {
        return;
      }
      var i := found.value;
      DropSlot(i);
      if this.window == window {
        this.window, webview := if windowCount > 0 then windows[0].window else 0,
                                if windowCount > 0 then windows[0].webview else 0;
      }
    }

    /** Takes one slot out of the table and keeps the rest of it in order, zeroing the place set free. */
    method DropSlot(i: nat)
      requires Valid() && i < windowCount
      modifies this`windowCount, this`liveWindows, windows
      ensures Valid() && windowCount == old(windowCount) - 1
      ensures windows[..windowCount] == Without(old(windows[..windowCount]), i)
    {
      hide Without;
      ghost var slots := windows[..windowCount];
      windows[i] := windows[i].(menuBar := None);
      ShiftDown(i);
      windowCount := windowCount - 1;
      windows[windowCount] := EMPTY_SLOT;
      if liveWindows > 0 {
        liveWindows := liveWindows - 1;
      }
      var rest := Without(slots, i);
      forall k | 0 <= k < windowCount ensures windows[k] == rest[k] {
        assert slots[if k < i then k else k + 1] == rest[k];
      }
    }

    /** Moves every slot behind `i` one place down; the last one is left where it was. */
    method ShiftDown(i: nat)
      requires windows.Length == MAX_WINDOWS && i < windowCount <= MAX_WINDOWS
      modifies windows
      ensures forall k :: 0 <= k < i ==> windows[k] == old(windows[k])
      ensures forall k :: i <= k < windowCount - 1 ==> windows[k] == old(windows[k + 1])
      ensures forall k :: windowCount - 1 <= k < MAX_WINDOWS ==> windows[k] == old(windows[k])
    {
      var j := i;
      while j + 1 < windowCount
        invariant i <= j < windowCount
        invariant forall k :: 0 <= k < i ==> windows[k] == old(windows[k])
        invariant forall k :: i <= k < j ==> windows[k] == old(windows[k + 1])
        invariant forall k :: j <= k < MAX_WINDOWS ==> windows[k] == old(windows[k])
      {
        windows[j] := windows[j + 1];
        j := j + 1;
      }
    }

    method OnWindowDestroyed(window: Handle)
      requires Valid()
      modifies this, windows
      ensures Valid() && State() == WindowDestroyed(old(State()), window)
    {
      hide RemoveSlot;
      RemoveWindowSlot(window);
      if liveWindows == 0 {
        calls := calls + [TerminateServices];
        calls := calls + [MainQuit(liveWindows)];
      }
    }

    /** Destroying a widget runs the destroy callback before it returns. */
    method Destroy(window: Handle)
      requires Valid()
      modifies this, windows
      ensures Valid() && State() == DestroyWidget(old(State()), window)
    {
      hide WindowDestroyed;
      calls := calls + [Call.Destroy(window)];
      OnWindowDestroyed(window);
    }

    method CloseAllWindows()
      requires Valid()
      modifies this, windows
      ensures Valid() && State() == CloseAll(old(State()))
    {
      hide DestroyWidget;
      var i: nat := windowCount;
      while i > 0
        invariant Valid() && i <= MAX_WINDOWS
        invariant CloseDown(State(), i) == CloseAll(old(State()))
      {
        i := i - 1;
        var window := windows[i].window;
        if window != 0 {
          Destroy(window);
        }
      }
    }

    // ----- menus -----

    method SetMenuBar(i: nat, payload: bytes)
      requires Valid() && i < windowCount
      modifies windows
      ensures Valid() && windows[i] == SetBar(old(windows[i]), payload)
      ensures forall k :: 0 <= k < MAX_WINDOWS && k != i ==> windows[k] == old(windows[k])
    {
      hide MenuBuilder.MenuBar;
      var bar := MenuReader.MenuBarFromPayload(payload);
      if bar.Some? && bar.value.Items? {
        windows[i] := windows[i].(menuBar := Some(bar.value.items));
      }
    }

    method ApplyAppMenuToAvailableWindows(payload: bytes)
      requires Valid()
      modifies windows
      ensures Valid()
      ensures var s := old(State());
              State() == s.(slots := seq(|s.slots|, k requires 0 <= k < |s.slots| => ShowAppMenu(s.slots[k], payload)))
    {
      hide Bar, SetBar;
      var i := 0;
      ghost var slots := windows[..windowCount];
      while i < windowCount
        invariant Valid() && i <= windowCount == |slots|
        invariant forall k :: 0 <= k < i ==> windows[k] == ShowAppMenu(slots[k], payload)
        invariant forall k :: i <= k < windowCount ==> windows[k] == slots[k]
      {
        if windows[i].window != 0 && !windows[i].hasWindowMenu {
          SetMenuBar(i, payload);
        }
        i := i + 1;
      }
      assert windows[..windowCount] ==
             seq(|slots|, k requires 0 <= k < |slots| => ShowAppMenu(slots[k], payload));
    }

    method SetApplicationMenu(payload: bytes)
      requires Valid()
      modifies this, windows
      ensures Valid() && State() == SetAppMenu(old(State()), payload)
    {
      hide Bar, AppMenuFits, ShowAppMenu;
      if payload == [] {
        return;
      }
      appMenuPayload := Some(payload);
      wanted := wanted.(app := Bar(payload));
      drifted := drifted || !AppMenuFits(State().slots, payload);
      ApplyAppMenuToAvailableWindows(payload);
    }

    method ClearApplicationMenu()
      requires Valid()
      modifies this, windows
      ensures Valid() && State() == ClearAppMenu(old(State()))
    {
      appMenuPayload := None;
      wanted := wanted.(app := None);
      var i := 0;
      ghost var slots := windows[..windowCount];
      while i < windowCount
        invariant Valid() && i <= windowCount == |slots|
        invariant forall k :: 0 <= k < i ==> windows[k] == HideAppMenu(slots[k])
        invariant forall k :: i <= k < windowCount ==> windows[k] == slots[k]
        modifies windows
      {
        if windows[i].window != 0 && !windows[i].hasWindowMenu {
          windows[i] := windows[i].(menuBar := None);
        }
        i := i + 1;
      }
      assert windows[..windowCount] == ClearAppMenu(old(State())).slots;
    }

    method SetSpecificWindowMenu(name: bytes, payload: bytes)
      requires Valid()
      modifies this, windows
      ensures Valid() && State() == SetWindowMenu(old(State()), name, payload)
    {
      hide Bar, Target;
      var slot := FindWindowSlot(name);
      if slot.None? {
        return;
      }
      var i := slot.value;
      drifted := drifted || !WindowMenuFits(State().slots, name, payload);
      windows[i] := windows[i].(hasWindowMenu := true);
      if Bar(payload).Some? {
        wanted := wanted.(own := wanted.own[windows[i].window := Bar(payload).value]);
      }
      SetMenuBar(i, payload);
    }

    method ClearSpecificWindowMenu(name: bytes)
      requires Valid()
      modifies this, windows
      ensures Valid() && State() == ClearWindowMenu(old(State()), name)
    {
      hide Bar, Target;
      var slot := FindWindowSlot(name);
      if slot.None? {
        return;
      }
      var i := slot.value;
      drifted := drifted || !ClearFits(State().slots, name, appMenuPayload);
      windows[i] := windows[i].(hasWindowMenu := false);
      wanted := wanted.(own := wanted.own - {windows[i].window});
      if appMenuPayload.Some? {
        SetMenuBar(i, appMenuPayload.value);
      } else {
        windows[i] := windows[i].(menuBar := None);
      }
    }

    // ----- the six passes -----

    method RegisterBridgeDrainRequest(window: bytes, callback: bytes)
      requires Valid()
      modifies this, drainRequests
      ensures Valid() && State() == RegisterDrain(old(State()), window, callback)
    {
      hide Stored;
      if callback == [] || drainRequestCount >= MAX_DRAINS {
        return;
      }
      var drain := Drain(Stored(window, LABEL_SIZE), Stored(callback, CALLBACK_SIZE));
      drainRequests[drainRequestCount] := drain;
      drainRequestCount := drainRequestCount + 1;
      accepted := accepted + [drain];
    }

    /** A new window starts with the application menu, if there is one. */
    method AttachAppMenu(i: nat)
      requires Valid() && i < windowCount
      modifies windows
      ensures Valid()
      ensures var s := old(State());
              var slots := if appMenuPayload.None? then s.slots
                           else s.slots[i := ShowAppMenu(s.slots[i], appMenuPayload.value)];
              State() == s.(slots := slots)
    {
      hide Bar;
      ghost var slots := windows[..windowCount];
      if appMenuPayload.Some? {
        if !windows[i].hasWindowMenu {
          SetMenuBar(i, appMenuPayload.value);
        }
        assert windows[i] == ShowAppMenu(slots[i], appMenuPayload.value);
        assert windows[..windowCount] == slots[i := windows[i]];
      }
    }

    /** Registers the window and shows the application menu in its slot, if it got one. */
    method RegisterAndShow(name: bytes, window: Handle, box: Handle, webview: Handle)
      requires Valid() && window != 0
      modifies this, windows
      ensures Valid()
      ensures State() == ShowNew(Register(old(State()), name, window, box, webview), |old(State()).slots|)
    {
      hide Register, ShowAppMenu;
      var before := windowCount;
      RegisterFrame(State(), name, window, box, webview);
      RegisterWindowSlot(name, window, box, webview);
      if windowCount > before {
        AttachAppMenu(before);
      }
    }

    method OpenWindowFromRecord(r: Record)
      requires Valid() && nextHandle > 0
      modifies this, windows
      ensures Valid() && State() == Open(old(State()), r)
    {
      hide FindExact, Register, OpenCall, Fits, ShowNew;
      if r.kind != OPEN_WINDOW || r.window == [] || r.url == [] {
        return;
      }
      var existing := FindWindowSlotExact(r.window);
      if existing.Some? {
        return;
      }
      var window, webview, box := nextHandle, nextHandle + 1, nextHandle + 2;
      nextHandle := nextHandle + 3;
      oddLabel := oddLabel || !Fits(r.window);
      RegisterAndShow(r.window, window, box, webview);
      var call := ReadOpenCall(r, window, webview);
      calls := calls + [call];
    }

    method ApplyControl(r: Record, closed: bool) returns (closed': bool)
      requires Valid()
      modifies this, windows
      ensures Valid() && Progress(State(), closed') == Control(Progress(old(State()), closed), r)
    {
      hide Target, DestroyWidget, ControlCall;
      closed' := closed;
      var slot := FindWindowSlot(r.window);
      if slot.None? {
        return;
      }
      var window := windows[slot.value].window;
      if window == 0 {
        return;
      }
      if r.kind == CLOSE_WINDOW || (r.kind == WINDOW_CONTROL && r.action == CLOSE) {
        if !closed {
          Destroy(window);
          closed' := true;
        }
        return;
      }
      if r.kind != WINDOW_CONTROL {
        return;
      }
      var call := ReadControl(r, window);
      if call.Some? {
        calls := calls + [call.value];
      }
    }

    method ApplyShellAction(r: Record)
      requires Valid()
      modifies this, windows
      ensures Valid() && State() == ShellAction(old(State()), r)
    {
      hide Target, IsAction, SetAppMenu, ClearAppMenu, SetWindowMenu, ClearWindowMenu, CloseAll;
      if r.kind != DESKTOP_SHELL {
        return;
      }
      if IsAction(r.action, MENU_DOMAIN, SET_APP_MENU) {
        SetApplicationMenu(r.url);
      } else if IsAction(r.action, MENU_DOMAIN, CLEAR_APP_MENU) {
        ClearApplicationMenu();
      } else if IsAction(r.action, MENU_DOMAIN, SET_WINDOW_MENU) {
        SetSpecificWindowMenu(r.window, r.url);
      } else if IsAction(r.action, MENU_DOMAIN, CLEAR_WINDOW_MENU) {
        ClearSpecificWindowMenu(r.window);
      } else if IsAction(r.action, APP_DOMAIN, RESTART) {
        if respawns {
          CloseAllWindows();
        }
      } else if IsAction(r.action, APP_DOMAIN, EXIT) {
        CloseAllWindows();
      } else {
        var slot := FindWindowSlot(r.window);
        if slot.None? || windows[slot.value].window == 0 {
          return;
        }
        var window := windows[slot.value].window;
        if IsAction(r.action, APP_DOMAIN, SHOW) {
          calls := calls + [ShowAll(window)];
          calls := calls + [Present(window)];
        } else if IsAction(r.action, APP_DOMAIN, HIDE) {
          calls := calls + [Hide(window)];
        }
      }
    }

    /** The web view of the slot a script or navigation record acts on; 0 when there is none. */
    method TargetView(name: bytes) returns (view: Handle)
      requires Valid()
      ensures view == match Target(State().slots, name) case None => 0 case Some(i) => State().slots[i].webview
    {
      hide Target;
      var slot := FindWindowSlot(name);
      view := if slot.None? then 0 else windows[slot.value].webview;
    }

    method ApplyRecord(pass: Pass, r: Record, closed: bool) returns (closed': bool)
      requires Valid() && nextHandle > 0
      modifies this, windows, drainRequests
      ensures Valid() && Progress(State(), closed') == Step(pass, Progress(old(State()), closed), r)
    {
      hide Target, Open, Control, ShellAction, RegisterDrain, CString;
      closed' := closed;
      match pass
      case Scripts =>
        if r.kind == EVALUATE_SCRIPT && r.url != [] {
          var view := TargetView(r.window);
          if view != 0 {
            calls := calls + [RunScript(view, CString(r.url))];
          }
        }
      case Drains =>
        if r.kind == DRAIN_BRIDGE_WINDOW {
          RegisterBridgeDrainRequest(r.window, r.action);
        }
      case Opens =>
        OpenWindowFromRecord(r);
      case Controls =>
        closed' := ApplyControl(r, closed);
      case Navigations =>
        if r.kind == NAVIGATE_WINDOW {
          var view := TargetView(r.window);
          if view != 0 {
            calls := calls + [LoadUri(view, CString(r.url))];
          }
        }
      case Shell =>
        ApplyShellAction(r);
    }

    /** One pass: it decodes the packet from its first byte and acts on each record as it is read. */
    method ApplyPassFromHandoffPacket(pass: Pass, packet: bytes)
      requires Valid() && Inv(State())
      modifies this, windows, drainRequests
      ensures Valid() && State() == ApplyPass(pass, old(State()), packet)
    {
      hide Inv, Steps, ReadRecord, ReadRecords, BatchOf, Step;
      if (pass == Controls && window == 0) || ((pass == Scripts || pass == Navigations) && webview == 0) {
        return;
      }
      var ok, cursor: nat, count: nat := HandoffOperationRecords(packet, LINUX_STATUSES);
      NoSteps(pass, Progress(State(), false));
      if !ok {
        return;
      }
      var closed := false;
      ghost var all := Steps(pass, Progress(State(), false), ReadRecords(packet, cursor, count).records);
      var i: nat := 0;
      while i < count
        invariant Valid() && Inv(State()) && i <= count && cursor <= |packet|
        invariant all == Steps(pass, Progress(State(), closed), ReadRecords(packet, cursor, count - i).records)
      {
        var read, record, next: nat := ReadNativeOperationRecord(packet, cursor);
        NoMoreRecords(packet, cursor, count - i);
        if !read {
          NoSteps(pass, Progress(State(), closed));
          return;
        }
        LoopRuns.StepKeeps(pass, Progress(State(), closed), record);
        HandlesStart(State());
        StepsCons(pass, Progress(State(), closed), record, ReadRecords(packet, next, count - i - 1).records);
        closed := ApplyRecord(pass, record, closed);
        cursor := next;
        i := i + 1;
      }
      NoMoreRecords(packet, cursor, 0);
      NoSteps(pass, Progress(State(), closed));
    }

    method ApplyOperationsFromHandoffPacket(packet: bytes)
      requires Valid() && Inv(State())
      modifies this, windows, drainRequests
      ensures Valid() && State() == ApplyOperations(old(State()), packet)
    {
      hide Inv, ApplyPass;
      LoopRuns.PassKeeps(Scripts, State(), packet);
      ApplyPassFromHandoffPacket(Scripts, packet);
      LoopRuns.PassKeeps(Drains, State(), packet);
      ApplyPassFromHandoffPacket(Drains, packet);
      LoopRuns.PassKeeps(Opens, State(), packet);
      ApplyPassFromHandoffPacket(Opens, packet);
      LoopRuns.PassKeeps(Controls, State(), packet);
      ApplyPassFromHandoffPacket(Controls, packet);
      LoopRuns.PassKeeps(Navigations, State(), packet);
      ApplyPassFromHandoffPacket(Navigations, packet);
      ApplyPassFromHandoffPacket(Shell, packet);
    }

    // ----- drain queue and messages -----

    method EvaluateImmediate(packet: bytes, view: Handle)
      requires Valid()
      modifies this`calls
      ensures Valid() && State() == RunImmediate(old(State()), packet, view)
    {
      hide ImmediateScript;
      var script := ReadImmediateScript(packet);
      if script.Some? && view != 0 {
        calls := calls + [RunScript(view, script.value)];
      }
    }

    method ViewFor(name: bytes) returns (view: Handle)
      requires Valid()
      ensures view == ViewOf(State(), name)
    {
      hide Target;
      var slot := FindWindowSlot(name);
      view := if slot.None? then webview else windows[slot.value].webview;
    }

    method DispatchNext(dispatch: Dispatch)
      requires Valid() && Inv(State()) && inFlight != []
      modifies this, windows, drainRequests
      ensures Valid() && State() == DispatchOne(old(State()), dispatch)
    {
      hide Inv, ApplyOperations, RunImmediate, ViewOf;
      var request := inFlight[0];
      LoopRuns.SendKeeps(State());
      var packet := dispatch(|dispatched|, DRAIN_PREFIX + request.window);
      inFlight, dispatched := inFlight[1..], dispatched + [request];
      var view := ViewFor(request.window);
      LoopRuns.ImmediateKeeps(State(), packet, view);
      EvaluateImmediate(packet, view);
      ApplyOperationsFromHandoffPacket(packet);
    }

    method TakeQueue()
      requires Valid()
      modifies this`inFlight, this`drainRequestCount
      ensures Valid() && State() == old(State()).(inFlight := old(State()).drains, drains := [])
    {
      inFlight := drainRequests[..drainRequestCount];
      drainRequestCount := 0;
    }

    method DispatchAll(dispatch: Dispatch)
      requires Valid() && Inv(State())
      modifies this, windows, drainRequests
      ensures Valid() && State() == DispatchBatch(old(State()), dispatch, |old(inFlight)|)
    {
      hide Inv, DispatchOne;
      var requestCount := |inFlight|;
      var i: nat := 0;
      while i < requestCount
        invariant Valid() && Inv(State()) && i <= requestCount && |inFlight| == requestCount - i
        invariant DispatchBatch(State(), dispatch, requestCount - i) ==
                  DispatchBatch(old(State()), dispatch, requestCount)
      {
        LoopRuns.DispatchOneKeeps(State(), dispatch);
        DispatchNext(dispatch);
        i := i + 1;
      }
    }

    /** At most 32 rounds; each takes the queue as a batch, and the answers may fill the queue again. */
    method ProcessBridgeDrainRequests(dispatch: Dispatch)
      requires Valid() && Inv(State()) && inFlight == []
      modifies this, windows, drainRequests
      ensures Valid() && State() == ProcessDrains(old(State()), dispatch)
    {
      hide Inv, DispatchBatch;
      var rounds: nat := 0;
      while drainRequestCount > 0 && rounds < MAX_ROUNDS
        decreases MAX_ROUNDS - rounds
        invariant Valid() && Inv(State()) && inFlight == [] && rounds <= MAX_ROUNDS
        invariant Rounds(State(), dispatch, MAX_ROUNDS - rounds) == ProcessDrains(old(State()), dispatch)
      {
        rounds := rounds + 1;
        LoopRuns.RoundKeeps(State(), dispatch);
        LoopRuns.TakeKeeps(State());
        TakeQueue();
        DispatchAll(dispatch);
      }
    }

    /** A message from a web view, already answered with `packet`. */
    method OnScriptMessage(packet: bytes, dispatch: Dispatch)
      requires Valid() && Inv(State()) && inFlight == []
      modifies this, windows, drainRequests
      ensures Valid() && State() == HandleMessage(old(State()), packet, dispatch)
    {
      hide Inv, ApplyOperations, RunImmediate, ViewOf, ProcessDrains, PacketWindow;
      if webview == 0 {
        return;
      }
      var view := ViewFor(PacketWindow(packet));
      LoopRuns.ImmediateKeeps(State(), packet, view);
      EvaluateImmediate(packet, view);
      LoopRuns.OperationsKeep(State(), packet);
      ApplyOperationsFromHandoffPacket(packet);
      ProcessBridgeDrainRequests(dispatch);
    }
  }

  lemma RegisterFrame(s: Loop, name: bytes, window: Handle, box: Handle, webview: Handle)
    ensures var t := Register(s, name, window, box, webview);
            t == s.(slots := t.slots) && |s.slots| <= |t.slots| <= |s.slots| + 1
  {}

  /** One unfolding of the record reader. */
  lemma NoMoreRecords(packet: bytes, cursor: nat, n: nat)
    requires cursor <= |packet|
    ensures n == 0 || ReadRecord(packet, cursor).NoRecord? ==> ReadRecords(packet, cursor, n).records == []
    ensures n > 0 && ReadRecord(packet, cursor).OneRecord? ==>
              var OneRecord(record, next) := ReadRecord(packet, cursor);
              ReadRecords(packet, cursor, n).records == [record] + ReadRecords(packet, next, n - 1).records
  {
    hide ReadRecord;
  }

  lemma NoSteps(pass: Pass, p: Progress)
    ensures Steps(pass, p, []) == p
  {}

  lemma StepsCons(pass: Pass, p: Progress, r: Record, rest: seq<Record>)
    ensures Steps(pass, p, [r] + rest) == Steps(pass, Step(pass, p, r), rest)
  {
    hide Step;
    assert ([r] + rest)[1..] == rest;
  }

  lemma HandlesStart(s: Loop)
    requires Inv(s)
    ensures s.next > 0
  {}

  lemma {:induction false} FindIsFirst(slots: seq<Slot>, name: bytes, i: nat)
    requires name != [] && i < |slots| && slots[i].name == name
    requires forall k :: 0 <= k < i ==> slots[k].name != name
    ensures FindExact(slots, name) == Some(i)
    decreases i
  {
    if i > 0 {
      FindIsFirst(slots[1..], name, i - 1);
    }
  }
}
