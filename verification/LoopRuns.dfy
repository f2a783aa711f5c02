/** The invariant over records, passes, drain rounds and whole runs. */
module LoopRuns {
  import opened Results
  import opened Bytes
  import opened PacketCodec
  import opened LoopSpec
  import Words
  import opened HandoffScript
  import opened LoopInvariants

  /** The logs only grow, and a drift is never forgotten. */
  ghost predicate Grows(s: Loop, t: Loop) {
    s.accepted <= t.accepted && s.calls <= t.calls && (s.drifted ==> t.drifted)
  }

  /** Carrying out operations sends no drain request. */
  ghost predicate Onward(s: Loop, t: Loop) {
    t.inFlight == s.inFlight && t.dispatched == s.dispatched && Grows(s, t)
  }

  lemma OnwardTrans(s: Loop, t: Loop, u: Loop)
    requires Onward(s, t) && Onward(t, u)
    ensures Onward(s, u)
  {}

  lemma LogOnward(s: Loop, call: Call)
    ensures Onward(s, Log(s, call))
  {}

  lemma DestroyOnward(s: Loop, window: Handle)
    ensures Onward(s, DestroyWidget(s, window)) && Onward(s, WindowDestroyed(s, window))
  {
    hide RemoveSlot;
    RemoveFrame(s, window);
    RemoveFrame(Log(s, Destroy(window)), window);
  }

  lemma {:induction false} CloseDownOnward(s: Loop, i: nat)
    ensures Onward(s, CloseDown(s, i))
    decreases i
  {
    hide DestroyWidget;
    if i > 0 {
      var window := if i - 1 < |s.slots| then s.slots[i - 1].window else 0;
      DestroyOnward(s, window);
      CloseDownOnward(if window != 0 then DestroyWidget(s, window) else s, i - 1);
    }
  }

  lemma RegisterDrainKeeps(s: Loop, window: bytes, callback: bytes)
    requires Inv(s)
    ensures Inv(RegisterDrain(s, window, callback)) && Onward(s, RegisterDrain(s, window, callback))
  {
    hide Windows, MenusShown, Stored;
    var t := RegisterDrain(s, window, callback);
    WindowsFrame(s, t);
    if |t.drains| > |s.drains| {
      assert s.dispatched + s.inFlight + (s.drains + t.drains[|s.drains|..]) ==
             (s.dispatched + s.inFlight + s.drains) + t.drains[|s.drains|..];
    }
  }

  lemma WindowsFrame(s: Loop, t: Loop)
    requires t == s.(drains := t.drains, accepted := t.accepted, inFlight := t.inFlight, dispatched := t.dispatched)
    ensures Windows(s) == Windows(t) && MenusShown(s) == MenusShown(t)
  {
    hide Bar, LiveSlot, DistinctWindows, DistinctNames, PrimaryIn, ShowsWanted;
  }

  lemma OpenOnward(s: Loop, r: Record)
    ensures Onward(s, Open(s, r))
  {
    hide Open;
    if Opening(s, r) {
      OpenShape(s, r);
    } else {
      NotOpening(s, r);
    }
  }

  lemma ControlKeeps(p: Progress, r: Record)
    requires Inv(p.s)
    ensures Inv(Control(p, r).s) && Onward(p.s, Control(p, r).s)
  {
    hide Inv, Target, ControlCall, DestroyWidget, Log, Onward;
    if Target(p.s.slots, r.window).Some? {
      var window := p.s.slots[Target(p.s.slots, r.window).value].window;
      DestroyKeeps(p.s, window);
      DestroyOnward(p.s, window);
      if ControlCall(r, window).Some? {
        NoQuitCall(r, window);
        LogKeeps(p.s, ControlCall(r, window).value);
        LogOnward(p.s, ControlCall(r, window).value);
      }
    }
    SameOnward(p.s);
  }

  lemma SameOnward(s: Loop)
    ensures Onward(s, s)
  {}

  lemma NoQuitCall(r: Record, window: Handle)
    ensures ControlCall(r, window).Some? ==> !ControlCall(r, window).value.MainQuit?
  {
    hide ParseInt, ParseBool, CString;
  }

  lemma ShellKeeps(s: Loop, r: Record)
    requires Inv(s)
    ensures Inv(ShellAction(s, r)) && Onward(s, ShellAction(s, r))
  {
    hide Inv, Target, Onward, IsAction, SetAppMenu, ClearAppMenu, SetWindowMenu, ClearWindowMenu, CloseDown, Log;
    SetAppMenuKeeps(s, r.url);
    ClearAppMenuKeeps(s);
    SetWindowMenuKeeps(s, r.window, r.url);
    ClearWindowMenuKeeps(s, r.window);
    MenusOnward(s, r);
    CloseDownKeeps(s, |s.slots|);
    CloseDownOnward(s, |s.slots|);
    SameOnward(s);
    if Target(s.slots, r.window).Some? {
      var window := s.slots[Target(s.slots, r.window).value].window;
      ShowKeeps(s, window);
    }
  }

  lemma ShowKeeps(s: Loop, window: Handle)
    requires Inv(s)
    ensures Inv(Log(Log(s, ShowAll(window)), Present(window))) &&
            Onward(s, Log(Log(s, ShowAll(window)), Present(window)))
    ensures Inv(Log(s, Hide(window))) && Onward(s, Log(s, Hide(window)))
  {
    hide Inv;
    LogKeeps(s, ShowAll(window));
    LogKeeps(Log(s, ShowAll(window)), Present(window));
    LogKeeps(s, Hide(window));
  }

  lemma MenusOnward(s: Loop, r: Record)
    ensures Onward(s, SetAppMenu(s, r.url)) && Onward(s, ClearAppMenu(s))
    ensures Onward(s, SetWindowMenu(s, r.window, r.url)) && Onward(s, ClearWindowMenu(s, r.window))
  {
    hide Bar, Target;
  }

  lemma ViewCallKeeps(s: Loop, view: Handle, text: bytes)
    requires Inv(s)
    ensures Inv(Log(s, RunScript(view, text))) && Onward(s, Log(s, RunScript(view, text)))
    ensures Inv(Log(s, LoadUri(view, text))) && Onward(s, Log(s, LoadUri(view, text)))
  {
    hide Inv;
    LogKeeps(s, RunScript(view, text));
    LogKeeps(s, LoadUri(view, text));
  }

  lemma StepKeeps(pass: Pass, p: Progress, r: Record)
    requires Inv(p.s)
    ensures Inv(Step(pass, p, r).s) && Onward(p.s, Step(pass, p, r).s)
  {
    hide Inv, Onward, Target, CString, Log, Open, Control, ShellAction, RegisterDrain;
    var s := p.s;
    SameOnward(s);
    match pass
    case Scripts =>
      if Target(s.slots, r.window).Some? {
        ViewCallKeeps(s, s.slots[Target(s.slots, r.window).value].webview, CString(r.url));
      }
    case Drains => RegisterDrainKeeps(s, r.window, r.action);
    case Opens =>
      OpenKeeps(s, r);
      OpenOnward(s, r);
    case Controls => ControlKeeps(p, r);
    case Navigations =>
      if Target(s.slots, r.window).Some? {
        ViewCallKeeps(s, s.slots[Target(s.slots, r.window).value].webview, CString(r.url));
      }
    case Shell => ShellKeeps(s, r);
  }

  lemma {:induction false} StepsKeep(pass: Pass, p: Progress, records: seq<Record>)
    requires Inv(p.s)
    ensures Inv(Steps(pass, p, records).s) && Onward(p.s, Steps(pass, p, records).s)
    decreases |records|
  {
    hide Inv, Onward, Step;
    if records == [] {
      SameOnward(p.s);
    } else {
      StepKeeps(pass, p, records[0]);
      StepsKeep(pass, Step(pass, p, records[0]), records[1..]);
      OnwardTrans(p.s, Step(pass, p, records[0]).s, Steps(pass, p, records).s);
    }
  }

  lemma PassKeeps(pass: Pass, s: Loop, packet: bytes)
    requires Inv(s)
    ensures Inv(ApplyPass(pass, s, packet)) && Onward(s, ApplyPass(pass, s, packet))
  {
    hide Inv, Onward, Steps, Visited;
    SameOnward(s);
    StepsKeep(pass, Progress(s, false), Visited(packet, LINUX_STATUSES));
  }

  lemma OperationsKeep(s: Loop, packet: bytes)
    requires Inv(s)
    ensures Inv(ApplyOperations(s, packet)) && Onward(s, ApplyOperations(s, packet))
  {
    hide Inv, Onward, ApplyPass;
    var s1 := ApplyPass(Scripts, s, packet);
    var s2 := ApplyPass(Drains, s1, packet);
    var s3 := ApplyPass(Opens, s2, packet);
    var s4 := ApplyPass(Controls, s3, packet);
    var s5 := ApplyPass(Navigations, s4, packet);
    PassKeeps(Scripts, s, packet);
    PassKeeps(Drains, s1, packet);
    PassKeeps(Opens, s2, packet);
    PassKeeps(Controls, s3, packet);
    PassKeeps(Navigations, s4, packet);
    PassKeeps(Shell, s5, packet);
    OnwardTrans(s, s1, s2);
    OnwardTrans(s, s2, s3);
    OnwardTrans(s, s3, s4);
    OnwardTrans(s, s4, s5);
    OnwardTrans(s, s5, ApplyPass(Shell, s5, packet));
  }

  lemma ImmediateKeeps(s: Loop, packet: bytes, view: Handle)
    requires Inv(s)
    ensures Inv(RunImmediate(s, packet, view)) && Onward(s, RunImmediate(s, packet, view))
  {
    hide Inv, Onward, ImmediateScript, Log;
    SameOnward(s);
    if ImmediateScript(packet).Some? {
      ViewCallKeeps(s, view, ImmediateScript(packet).value);
    }
  }

  // ----- drain queue -----

  /** Sending moves the first request of the batch to the sent ones; nothing is lost. */
  lemma SendKeeps(s: Loop)
    requires Inv(s) && s.inFlight != []
    ensures Inv(s.(inFlight := s.inFlight[1..], dispatched := s.dispatched + [s.inFlight[0]]))
  {
    hide Windows, MenusShown;
    var t := s.(inFlight := s.inFlight[1..], dispatched := s.dispatched + [s.inFlight[0]]);
    WindowsFrame(s, t);
    assert s.dispatched + s.inFlight == t.dispatched + t.inFlight;
  }

  lemma DispatchOneKeeps(s: Loop, dispatch: Dispatch)
    requires Inv(s) && s.inFlight != []
    ensures var t := DispatchOne(s, dispatch);
            && Inv(t) && t.inFlight == s.inFlight[1..] && t.dispatched == s.dispatched + [s.inFlight[0]]
            && Grows(s, t)
  {
    hide Inv, ApplyOperations, RunImmediate, ViewOf;
    SendKeeps(s);
    var request := s.inFlight[0];
    var packet := dispatch(|s.dispatched|, Words.DRAIN_PREFIX + request.window);
    var sent := s.(inFlight := s.inFlight[1..], dispatched := s.dispatched + [request]);
    ImmediateKeeps(sent, packet, ViewOf(sent, request.window));
    OperationsKeep(RunImmediate(sent, packet, ViewOf(sent, request.window)), packet);
  }

  lemma {:induction false} DispatchBatchKeeps(s: Loop, dispatch: Dispatch, n: nat)
    requires Inv(s) && n == |s.inFlight|
    ensures var t := DispatchBatch(s, dispatch, n);
            Inv(t) && t.inFlight == [] && t.dispatched == s.dispatched + s.inFlight && Grows(s, t)
    decreases n
  {
    hide Inv, DispatchOne;
    if n > 0 {
      DispatchOneKeeps(s, dispatch);
      DispatchBatchKeeps(DispatchOne(s, dispatch), dispatch, n - 1);
    }
  }

  /** Taking the queue as the batch in flight. */
  lemma TakeKeeps(s: Loop)
    requires Inv(s) && s.inFlight == []
    ensures Inv(s.(inFlight := s.drains, drains := []))
  {
    hide Windows, MenusShown, QuitSafe;
    var t := s.(inFlight := s.drains, drains := []);
    WindowsFrame(s, t);
    TakeKeepsQuit(s, t);
  }

  /** One round sends exactly the queue it found, in order. */
  lemma RoundKeeps(s: Loop, dispatch: Dispatch)
    requires Inv(s) && s.inFlight == []
    ensures var t := Round(s, dispatch);
            Inv(t) && t.inFlight == [] && t.dispatched == s.dispatched + s.drains && Grows(s, t)
  {
    hide Inv, DispatchBatch;
    var t := s.(inFlight := s.drains, drains := []);
    TakeKeeps(s);
    DispatchBatchKeeps(t, dispatch, |s.drains|);
  }

  lemma TakeKeepsQuit(s: Loop, t: Loop)
    requires QuitSafe(s) && t.calls == s.calls && t.slots == s.slots && t.primary == s.primary
    ensures QuitSafe(t)
  {}

  /** How many rounds run before the queue is empty or the bound is reached. */
  function RoundsRun(s: Loop, dispatch: Dispatch, n: nat): nat
    decreases n
  {
    if n == 0 || s.drains == [] then 0 else 1 + RoundsRun(Round(s, dispatch), dispatch, n - 1)
  }

  lemma {:induction false} RoundsKeep(s: Loop, dispatch: Dispatch, n: nat)
    requires Inv(s) && s.inFlight == []
    ensures var t := Rounds(s, dispatch, n);
            && Inv(t) && t.inFlight == []
            && |t.dispatched| <= |s.dispatched| + MAX_DRAINS * RoundsRun(s, dispatch, n)
            && RoundsRun(s, dispatch, n) <= n
            && (t.drains == [] || RoundsRun(s, dispatch, n) == n)
            && s.dispatched <= t.dispatched && Grows(s, t)
    decreases n
  {
    hide Inv, Round;
    if n > 0 && s.drains != [] {
      RoundKeeps(s, dispatch);
      QueueBound(s);
      RoundsKeep(Round(s, dispatch), dispatch, n - 1);
    }
  }

  lemma QueueBound(s: Loop)
    requires Inv(s)
    ensures |s.drains| <= MAX_DRAINS
  {}

  /** Drain processing against any dispatcher, even one whose answers keep refilling the queue: every
      accepted request is sent or still queued, in order; at most 32 * 32 requests are sent; and at
      the end the queue is empty or all 32 rounds have run. */
  lemma ProcessDrainsConserves(s: Loop, dispatch: Dispatch)
    requires Inv(s) && s.inFlight == []
    ensures var t := ProcessDrains(s, dispatch);
            && Inv(t) && t.inFlight == []
            && t.accepted == t.dispatched + t.drains
            && s.dispatched <= t.dispatched && |t.dispatched| <= |s.dispatched| + 32 * 32
            && (t.drains == [] || RoundsRun(s, dispatch, MAX_ROUNDS) == 32)
            && Grows(s, t)
  {
    hide Rounds, RoundsRun, Windows, MenusShown, QuitSafe;
    RoundsKeep(s, dispatch, MAX_ROUNDS);
    var t := ProcessDrains(s, dispatch);
    assert t.dispatched + [] == t.dispatched;
  }

  // ----- whole runs -----

  lemma MessageKeeps(s: Loop, packet: bytes, dispatch: Dispatch)
    requires Inv(s) && s.inFlight == []
    ensures var t := HandleMessage(s, packet, dispatch); Inv(t) && t.inFlight == [] && Grows(s, t)
  {
    hide Inv, RunImmediate, ApplyOperations, ProcessDrains, ViewOf, PacketWindow;
    if s.primaryView != 0 {
      var started := RunImmediate(s, packet, ViewOf(s, PacketWindow(packet)));
      ImmediateKeeps(s, packet, ViewOf(s, PacketWindow(packet)));
      OperationsKeep(started, packet);
      ProcessDrainsConserves(ApplyOperations(started, packet), dispatch);
    }
  }

  lemma ClosedKeeps(s: Loop, window: Handle)
    requires Inv(s)
    ensures Inv(ClosedByUser(s, window)) && Onward(s, ClosedByUser(s, window))
  {
    hide Inv, WindowDestroyed;
    var noted := Log(s, Closed(window));
    LogKeeps(s, Closed(window));
    LogOnward(s, Closed(window));
    DestroyedKeeps(noted, window);
    DestroyOnward(noted, window);
    DestroyedKeeps(s, window);
    DestroyOnward(s, window);
    OnwardTrans(s, noted, WindowDestroyed(noted, window));
  }

  lemma MainWindowHolds(name: bytes, respawns: bool)
    ensures Inv(MainWindow(name, respawns)) && MainWindow(name, respawns).inFlight == []
  {
    hide Bar, CString, Stored;
    var s := MainWindow(name, respawns);
    assert |s.slots| == 1 && s.slots[0].window == 1 && s.slots[0].webview == 2;
  }

  lemma StartHolds(name: bytes, packet: bytes, respawns: bool)
    ensures Inv(Start(name, packet, respawns)) && Start(name, packet, respawns).inFlight == []
  {
    hide Inv, MainWindow, ApplyPass;
    MainWindowHolds(name, respawns);
    PassKeeps(Opens, MainWindow(name, respawns), packet);
  }

  /** In every run - any start-up packet, any messages and window destructions in any order, any
      answers of the dispatcher - the window table, quit requests, drain queue and menus stay right. */
  lemma {:induction false} RunKeeps(name: bytes, packet: bytes, respawns: bool, events: seq<Event>, dispatch: Dispatch)
    ensures var s := Run(Start(name, packet, respawns), events, dispatch);
            Inv(s) && s.inFlight == []
    decreases |events|
  {
    hide Inv, Start, HandleMessage, ClosedByUser;
    if events == [] {
      StartHolds(name, packet, respawns);
    } else {
      var init := events[..|events| - 1];
      RunKeeps(name, packet, respawns, init, dispatch);
      var s := Run(Start(name, packet, respawns), init, dispatch);
      match events[|events| - 1]
      case Message(message) => MessageKeeps(s, message, dispatch);
      case Destroyed(window) => ClosedKeeps(s, window);
    }
  }

  lemma ReactGrows(s: Loop, event: Event, dispatch: Dispatch)
    requires Inv(s) && s.inFlight == []
    ensures Grows(s, React(s, event, dispatch))
  {
    hide Inv, HandleMessage, ClosedByUser;
    match event
    case Message(packet) => MessageKeeps(s, packet, dispatch);
    case Destroyed(window) => ClosedKeeps(s, window);
  }

  /** What a run has logged stays at the front of the log when it goes on. */
  lemma {:induction false} RunGrows(name: bytes, packet: bytes, respawns: bool, events: seq<Event>, more: seq<Event>,
                                    dispatch: Dispatch)
    ensures var s := Start(name, packet, respawns);
            Grows(Run(s, events, dispatch), Run(s, events + more, dispatch))
    decreases |more|
  {
    hide Inv, Start, React;
    var all := events + more;
    if more == [] {
      assert all == events;
    } else {
      var init := more[..|more| - 1];
      RunGrows(name, packet, respawns, events, init, dispatch);
      assert all[..|all| - 1] == events + init;
      RunKeeps(name, packet, respawns, events + init, dispatch);
      ReactGrows(Run(Start(name, packet, respawns), events + init, dispatch), all[|all| - 1], dispatch);
    }
  }
}
