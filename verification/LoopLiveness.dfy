/** Toolkit calls and windows: no call ever names a destroyed window, and which window an operation and a
    full table really reach. */
module LoopLiveness {
  import opened Results
  import opened Bytes
  import opened PacketCodec
  import opened HandoffScript
  import opened LoopSpec
  import opened LoopInvariants
  import opened LoopRuns
  import Words

  /** The call names the window, or its web view, which is always the handle after it. */
  predicate Names(call: Call, window: Handle) {
    match call
    case OpenWindow(w, _, _, _, _, _, _) => w == window
    case SetTitle(w, _) => w == window
    case Resize(w, _, _) => w == window
    case Move(w, _, _) => w == window
    case Fullscreen(w, _) => w == window
    case ShowAll(w) => w == window
    case Present(w) => w == window
    case Hide(w) => w == window
    case Iconify(w) => w == window
    case Maximize(w) => w == window
    case Unmaximize(w) => w == window
    case Destroy(w) => w == window
    case LoadUri(view, _) => view == window + 1
    case RunScript(view, _) => view == window + 1
    case TerminateServices => false
    case MainQuit(_) => false
    case Closed(_) => false
  }

  ghost predicate Registered(s: Loop, window: Handle) {
    exists k :: 0 <= k < |s.slots| && s.slots[k].window == window
  }

  ghost predicate Paired(s: Loop) {
    forall k :: 0 <= k < |s.slots| ==> s.slots[k].webview == s.slots[k].window + 1
  }

  /** The end of a window: destroyed by a call of the loop, or closed by its user. */
  predicate Ends(call: Call) {
    call.Destroy? || call.Closed?
  }

  /** A window that has ended is not registered, is older than the next handle, and is named by no later
      call, so that it is not destroyed again either. */
  ghost predicate Gone(s: Loop) {
    forall i :: 0 <= i < |s.calls| && Ends(s.calls[i]) ==>
      && s.calls[i].window < s.next && !Registered(s, s.calls[i].window)
      && forall j :: i < j < |s.calls| ==> !Names(s.calls[j], s.calls[i].window)
  }

  ghost predicate Sound(s: Loop) {
    Inv(s) && Paired(s) && Gone(s)
  }

  /** Whatever the call names is registered or new. */
  ghost predicate CallsLive(s: Loop, call: Call) {
    forall w: Handle :: Names(call, w) ==> w >= s.next || Registered(s, w)
  }

  lemma LogGone(s: Loop, call: Call)
    requires Gone(s) && CallsLive(s, call) && !Ends(call)
    ensures Gone(Log(s, call))
  {
    hide Names;
    var t := Log(s, call);
    forall i | 0 <= i < |t.calls| && Ends(t.calls[i])
      ensures t.calls[i].window < t.next && !Registered(t, t.calls[i].window)
      ensures forall j :: i < j < |t.calls| ==> !Names(t.calls[j], t.calls[i].window)
    {
      assert i < |s.calls| && t.calls[i] == s.calls[i];
      assert Registered(t, t.calls[i].window) == Registered(s, t.calls[i].window);
    }
  }

  /** No call is made, and no old window comes back. */
  lemma TableGone(s: Loop, t: Loop)
    requires Gone(s) && t.calls == s.calls && t.next >= s.next
    requires forall w: Handle :: Registered(t, w) ==> Registered(s, w) || w >= s.next
    ensures Gone(t)
  {
    hide Names, Registered;
  }

  lemma RemoveGone(s: Loop, window: Handle)
    requires Gone(s) && Paired(s)
    ensures Gone(RemoveSlot(s, window)) && Paired(RemoveSlot(s, window))
    ensures Windows(s) && window != 0 ==> !Registered(RemoveSlot(s, window), window)
  {
    hide Names, Gone, RemoveSlot;
    var t := RemoveSlot(s, window);
    RemoveFrame(s, window);
    RemovedFrom(s, window);
    forall w | Registered(t, w) ensures Registered(s, w) {
      var k :| 0 <= k < |t.slots| && t.slots[k].window == w;
      assert t.slots[k] in s.slots;
    }
    TableGone(s, t);
  }

  lemma RemovedFrom(s: Loop, window: Handle)
    ensures var t := RemoveSlot(s, window);
            && (forall k :: 0 <= k < |t.slots| ==> t.slots[k] in s.slots)
            && (Windows(s) && window != 0 ==> forall k :: 0 <= k < |t.slots| ==> t.slots[k].window != window)
  {
    hide WindowIndex, LiveSlot, PrimaryIn, DistinctNames, Without;
    if window != 0 && WindowIndex(s.slots, window).Some? {
      WithoutInside(s.slots, WindowIndex(s.slots, window).value);
    }
  }

  lemma WithoutInside(slots: seq<Slot>, i: nat)
    requires i < |slots|
    ensures forall k :: 0 <= k < |Without(slots, i)| ==> Without(slots, i)[k] in slots
  {
    forall k | 0 <= k < |Without(slots, i)| ensures Without(slots, i)[k] in slots {
      assert Without(slots, i)[k] == slots[if k < i then k else k + 1];
    }
  }

  lemma FarewellSound(s: Loop)
    requires Gone(s)
    ensures Gone(Log(Log(s, TerminateServices), MainQuit(|s.slots|)))
  {
    hide Gone;
    LogGone(s, TerminateServices);
    LogGone(Log(s, TerminateServices), MainQuit(|s.slots|));
  }

  /** A window closed by its user is never named again either, whether it was registered or not. */
  lemma ClosedSound(s: Loop, window: Handle)
    requires Sound(s)
    ensures Sound(ClosedByUser(s, window))
  {
    hide Inv, Gone, RemoveSlot, Windows;
    assert Windows(s) by { InvWindows(s); }
    RemoveGone(s, window);
    RemoveFrame(s, window);
    var removed := RemoveSlot(s, window);
    if 0 < window < s.next {
      LogKeeps(s, Closed(window));
      DestroyedKeeps(Log(s, Closed(window)), window);
      RemoveIgnoresCalls(s, window, Closed(window));
      EndLogged(s, removed, window, Closed(window));
      FarewellSound(removed.(calls := s.calls + [Closed(window)]));
    } else {
      DestroyedKeeps(s, window);
      FarewellSound(removed);
    }
  }

  /** Destroying a registered window: the call names it once more, and never again. */
  lemma DestroySound(s: Loop, window: Handle)
    requires Sound(s) && Registered(s, window)
    ensures Sound(DestroyWidget(s, window))
  {
    hide Inv, Gone, RemoveSlot, Windows;
    DestroyKeeps(s, window);
    assert Windows(s) by { InvWindows(s); }
    var k :| 0 <= k < |s.slots| && s.slots[k].window == window;
    LiveWindows(s);
    RemoveGone(s, window);
    RemoveFrame(s, window);
    var removed := RemoveSlot(s, window);
    var logged := Log(s, Destroy(window));
    assert RemoveSlot(logged, window) == removed.(calls := logged.calls) by {
      RemoveIgnoresCalls(s, window, Destroy(window));
    }
    EndLogged(s, removed, window, Destroy(window));
    FarewellSound(RemoveSlot(logged, window));
  }

  lemma InvWindows(s: Loop)
    requires Inv(s)
    ensures Windows(s)
  {
    hide Windows;
  }

  lemma RemoveIgnoresCalls(s: Loop, window: Handle, call: Call)
    ensures RemoveSlot(Log(s, call), window) == RemoveSlot(s, window).(calls := s.calls + [call])
  {
    hide WindowIndex, Without;
  }

  /** The entry that ends a window; a call may only destroy a window that is still registered. */
  lemma EndLogged(s: Loop, removed: Loop, window: Handle, call: Call)
    requires Gone(s) && Gone(removed) && removed.calls == s.calls && removed.next == s.next
    requires call == Destroy(window) || call == Closed(window)
    requires call.Destroy? ==> Registered(s, window)
    requires !Registered(removed, window) && window < s.next
    ensures Gone(removed.(calls := s.calls + [call]))
  {
    hide Names;
    var t := removed.(calls := s.calls + [call]);
    forall i | 0 <= i < |t.calls| && Ends(t.calls[i])
      ensures t.calls[i].window < t.next && !Registered(t, t.calls[i].window)
      ensures forall j :: i < j < |t.calls| ==> !Names(t.calls[j], t.calls[i].window)
    {
      assert Registered(t, t.calls[i].window) == Registered(removed, t.calls[i].window);
      if i < |s.calls| {
        assert t.calls[i] == s.calls[i] && !Registered(s, s.calls[i].window);
        OnlyItself(window, s.calls[i].window);
      }
    }
  }

  lemma OnlyItself(window: Handle, other: Handle)
    ensures Names(Destroy(window), other) <==> other == window
    ensures !Names(Closed(window), other)
  {}

  lemma {:induction false} CloseSound(s: Loop, i: nat)
    requires Sound(s)
    ensures Sound(CloseDown(s, i))
    decreases i
  {
    hide Sound, DestroyWidget;
    if i > 0 {
      var window := if i - 1 < |s.slots| then s.slots[i - 1].window else 0;
      if window != 0 {
        assert Registered(s, window);
        DestroySound(s, window);
      }
      CloseSound(if window != 0 then DestroyWidget(s, window) else s, i - 1);
    }
  }

  // ----- every record, pass and run -----

  /** A step that leaves windows and calls alone. */
  lemma StillSound(s: Loop, t: Loop)
    requires Sound(s) && Inv(t) && t.calls == s.calls && t.next == s.next && SameTable(t.slots, s.slots)
    ensures Sound(t)
  {
    hide Inv, Gone;
    forall w | Registered(t, w) ensures Registered(s, w) {
      var k :| 0 <= k < |t.slots| && t.slots[k].window == w;
      assert s.slots[k].window == w;
    }
    TableGone(s, t);
  }

  /** A call about a registered window or its view. */
  lemma CallSound(s: Loop, call: Call, i: nat)
    requires Sound(s) && i < |s.slots| && Inv(Log(s, call)) && !Ends(call)
    requires forall w: Handle :: Names(call, w) ==> w == s.slots[i].window
    ensures Sound(Log(s, call))
  {
    hide Inv, Gone, Names;
    assert Registered(s, s.slots[i].window);
    LogGone(s, call);
  }

  lemma OpenSound(s: Loop, r: Record)
    requires Sound(s)
    ensures Sound(Open(s, r))
  {
    hide Inv, Gone, Open, Opening, NewSlot;
    OpenKeeps(s, r);
    if Opening(s, r) {
      OpenShape(s, r);
      var t := Open(s, r);
      var grown := s.(next := t.next, slots := t.slots, oddLabel := t.oddLabel);
      NewSlotPaired(s, r.window);
      forall w: Handle | Registered(grown, w) ensures Registered(s, w) || w >= s.next {
        var k :| 0 <= k < |t.slots| && t.slots[k].window == w;
        assert k < |s.slots| ==> t.slots[k] == s.slots[k];
      }
      TableGone(s, grown);
      OpenLogged(s, grown, t, r);
    } else {
      assert Open(s, r) == s by { NotOpening(s, r); }
    }
  }

  lemma NewSlotPaired(s: Loop, name: bytes)
    ensures NewSlot(s, name).window == s.next && NewSlot(s, name).webview == s.next + 1
  {
    hide Bar;
  }

  /** The new window is the only one the call names; it is newer than everything destroyed. */
  lemma OpenLogged(s: Loop, grown: Loop, t: Loop, r: Record)
    requires Gone(grown) && grown.calls == s.calls && Gone(s)
    requires t == grown.(calls := t.calls) && |t.calls| == |s.calls| + 1 && t.calls[..|s.calls|] == s.calls
    requires t.calls[|s.calls|].OpenWindow? && t.calls[|s.calls|].window == s.next
    ensures Gone(t)
  {
    hide Names;
    forall i | 0 <= i < |t.calls| && Ends(t.calls[i])
      ensures t.calls[i].window < t.next && !Registered(t, t.calls[i].window)
      ensures forall j :: i < j < |t.calls| ==> !Names(t.calls[j], t.calls[i].window)
    {
      assert t.calls[..|s.calls|][i] == s.calls[i];
      assert forall j :: 0 <= j < |s.calls| ==> t.calls[j] == t.calls[..|s.calls|][j];
      assert Registered(t, t.calls[i].window) == Registered(grown, t.calls[i].window);
      assert !Names(t.calls[|s.calls|], t.calls[i].window) by { OnlyTheNew(t.calls[|s.calls|], t.calls[i].window); }
    }
  }

  lemma OnlyTheNew(call: Call, window: Handle)
    requires call.OpenWindow?
    ensures Names(call, window) <==> window == call.window
  {}

  lemma ControlSound(p: Progress, r: Record)
    requires Sound(p.s)
    ensures Sound(Control(p, r).s)
  {
    hide Inv, Gone, Paired, ControlCall, DestroyWidget, Target;
    var s := p.s;
    ControlKeeps(p, r);
    if Target(s.slots, r.window).Some? {
      var i := Target(s.slots, r.window).value;
      var window := s.slots[i].window;
      assert Registered(s, window);
      DestroySound(s, window);
      NoQuitCall(r, window);
      OwnWindow(r, window);
      if ControlCall(r, window).Some? {
        LogKeeps(s, ControlCall(r, window).value);
        CallSound(s, ControlCall(r, window).value, i);
      }
    }
  }

  lemma OwnWindow(r: Record, window: Handle)
    ensures ControlCall(r, window).Some? ==>
              !Ends(ControlCall(r, window).value) &&
              forall w: Handle :: Names(ControlCall(r, window).value, w) ==> w == window
  {
    hide ParseInt, ParseBool, CString;
  }

  lemma ViewSound(s: Loop, i: nat, text: bytes)
    requires Sound(s) && i < |s.slots|
    ensures Sound(Log(s, RunScript(s.slots[i].webview, text))) && Sound(Log(s, LoadUri(s.slots[i].webview, text)))
  {
    hide Inv, Gone;
    ViewCallKeeps(s, s.slots[i].webview, text);
    CallSound(s, RunScript(s.slots[i].webview, text), i);
    CallSound(s, LoadUri(s.slots[i].webview, text), i);
  }

  lemma MenusSound(s: Loop, r: Record)
    requires Sound(s)
    ensures Sound(SetAppMenu(s, r.url)) && Sound(ClearAppMenu(s))
    ensures Sound(SetWindowMenu(s, r.window, r.url)) && Sound(ClearWindowMenu(s, r.window))
  {
    hide Inv, Bar, Target, AppMenuFits, WindowMenuFits, ClearFits, Sound;
    SoundInv(s);
    SetAppMenuKeeps(s, r.url);
    ClearAppMenuKeeps(s);
    SetWindowMenuKeeps(s, r.window, r.url);
    ClearWindowMenuKeeps(s, r.window);
    StillSound(s, SetAppMenu(s, r.url));
    StillSound(s, ClearAppMenu(s));
    StillSound(s, SetWindowMenu(s, r.window, r.url));
    StillSound(s, ClearWindowMenu(s, r.window));
  }

  lemma ShellSound(s: Loop, r: Record)
    requires Sound(s)
    ensures Sound(ShellAction(s, r))
  {
    hide Sound, SetAppMenu, ClearAppMenu, SetWindowMenu, ClearWindowMenu, CloseDown, Target, Log;
    MenusSound(s, r);
    CloseSound(s, |s.slots|);
    if Target(s.slots, r.window).Some? {
      ShowSound(s, Target(s.slots, r.window).value);
    }
  }

  lemma ShowSound(s: Loop, i: nat)
    requires Sound(s) && i < |s.slots|
    ensures var window := s.slots[i].window;
            Sound(Log(Log(s, ShowAll(window)), Present(window))) && Sound(Log(s, Hide(window)))
  {
    hide Inv, Gone;
    var window := s.slots[i].window;
    var shown := Log(s, ShowAll(window));
    LogKeeps(s, ShowAll(window));
    CallSound(s, ShowAll(window), i);
    LogKeeps(s, Hide(window));
    CallSound(s, Hide(window), i);
    LogKeeps(shown, Present(window));
    CallSound(shown, Present(window), i);
  }

  lemma DrainSound(s: Loop, window: bytes, callback: bytes)
    requires Sound(s)
    ensures Sound(RegisterDrain(s, window, callback))
  {
    hide Inv, Stored, Sound;
    SoundInv(s);
    RegisterDrainKeeps(s, window, callback);
    StillSound(s, RegisterDrain(s, window, callback));
  }

  lemma StepSound(pass: Pass, p: Progress, r: Record)
    requires Sound(p.s)
    ensures Sound(Step(pass, p, r).s)
  {
    hide Sound, Target, CString, Log, Open, Control, ShellAction, RegisterDrain;
    var s := p.s;
    if Target(s.slots, r.window).Some? {
      ViewSound(s, Target(s.slots, r.window).value, CString(r.url));
    }
    match pass
    case Drains => DrainSound(s, r.window, r.action);
    case Opens => OpenSound(s, r);
    case Controls => ControlSound(p, r);
    case Shell => ShellSound(s, r);
    case _ =>
  }

  lemma {:induction false} StepsSound(pass: Pass, p: Progress, records: seq<Record>)
    requires Sound(p.s)
    ensures Sound(Steps(pass, p, records).s)
    decreases |records|
  {
    hide Sound, Step;
    if records != [] {
      StepSound(pass, p, records[0]);
      StepsSound(pass, Step(pass, p, records[0]), records[1..]);
    }
  }

  lemma PassSound(pass: Pass, s: Loop, packet: bytes)
    requires Sound(s)
    ensures Sound(ApplyPass(pass, s, packet))
  {
    hide Sound, Steps, Visited;
    StepsSound(pass, Progress(s, false), Visited(packet, LINUX_STATUSES));
  }

  lemma OperationsSound(s: Loop, packet: bytes)
    requires Sound(s)
    ensures Sound(ApplyOperations(s, packet))
  {
    hide Sound, ApplyPass;
    var s1 := ApplyPass(Scripts, s, packet);
    var s2 := ApplyPass(Drains, s1, packet);
    var s3 := ApplyPass(Opens, s2, packet);
    var s4 := ApplyPass(Controls, s3, packet);
    var s5 := ApplyPass(Navigations, s4, packet);
    PassSound(Scripts, s, packet);
    PassSound(Drains, s1, packet);
    PassSound(Opens, s2, packet);
    PassSound(Controls, s3, packet);
    PassSound(Navigations, s4, packet);
    PassSound(Shell, s5, packet);
  }

  lemma ImmediateSound(s: Loop, packet: bytes, name: bytes)
    requires Sound(s)
    ensures Sound(RunImmediate(s, packet, ViewOf(s, name)))
  {
    hide Gone, Paired, Target, ImmediateScript, Windows, QuitSafe, DrainsConserved, MenusShown;
    if ImmediateScript(packet).Some? {
      var script := ImmediateScript(packet).value;
      if Target(s.slots, name).Some? {
        ViewSound(s, Target(s.slots, name).value, script);
      } else {
        assert s.slots == [] && s.primaryView == 0 by { NoPrimary(s); }
      }
    }
  }

  lemma NoPrimary(s: Loop)
    requires Windows(s)
    ensures s.slots == [] ==> s.primaryView == 0
  {}

  lemma QueueSound(s: Loop, t: Loop)
    requires Sound(s) && Inv(t)
    requires t == s.(drains := t.drains, accepted := t.accepted, inFlight := t.inFlight, dispatched := t.dispatched)
    ensures Sound(t)
  {
    hide Inv, Sound;
    StillSound(s, t);
  }

  lemma {:induction false} BatchSound(s: Loop, dispatch: Dispatch, n: nat)
    requires Sound(s) && n == |s.inFlight|
    ensures Sound(DispatchBatch(s, dispatch, n))
    decreases n
  {
    hide Sound, ApplyOperations, RunImmediate, ViewOf, Inv;
    if n > 0 {
      assert Inv(s) by { SoundInv(s); }
      SendKeeps(s);
      var request := s.inFlight[0];
      var packet := dispatch(|s.dispatched|, Words.DRAIN_PREFIX + request.window);
      var sent := s.(inFlight := s.inFlight[1..], dispatched := s.dispatched + [request]);
      QueueSound(s, sent);
      ImmediateSound(sent, packet, request.window);
      OperationsSound(RunImmediate(sent, packet, ViewOf(sent, request.window)), packet);
      DispatchOneKeeps(s, dispatch);
      BatchSound(DispatchOne(s, dispatch), dispatch, n - 1);
    }
  }

  lemma SoundInv(s: Loop)
    requires Sound(s)
    ensures Inv(s)
  {
    hide Inv;
  }

  lemma {:induction false} RoundsSound(s: Loop, dispatch: Dispatch, n: nat)
    requires Sound(s) && s.inFlight == []
    ensures Sound(Rounds(s, dispatch, n))
    decreases n
  {
    hide Sound, DispatchBatch, Inv;
    if n > 0 && s.drains != [] {
      SoundInv(s);
      TakeKeeps(s);
      var taken := s.(inFlight := s.drains, drains := []);
      QueueSound(s, taken);
      BatchSound(taken, dispatch, |s.drains|);
      RoundKeeps(s, dispatch);
      RoundsSound(Round(s, dispatch), dispatch, n - 1);
    }
  }

  lemma MessageSound(s: Loop, packet: bytes, dispatch: Dispatch)
    requires Sound(s) && s.inFlight == []
    ensures Sound(HandleMessage(s, packet, dispatch))
  {
    hide Sound, Inv, RunImmediate, ApplyOperations, Rounds, ViewOf, PacketWindow;
    if s.primaryView != 0 {
      var started := RunImmediate(s, packet, ViewOf(s, PacketWindow(packet)));
      SoundInv(s);
      ImmediateKeeps(s, packet, ViewOf(s, PacketWindow(packet)));
      OperationsKeep(started, packet);
      ImmediateSound(s, packet, PacketWindow(packet));
      OperationsSound(started, packet);
      RoundsSound(ApplyOperations(started, packet), dispatch, MAX_ROUNDS);
    }
  }

  /** In every run no call names a window that has ended before, by a call of the loop or closed by its
      user; so no window is destroyed twice, and no script or page is sent to the view of a window that
      is gone. */
  lemma {:induction false} RunSound(name: bytes, packet: bytes, respawns: bool, events: seq<Event>, dispatch: Dispatch)
    ensures var s := Run(Start(name, packet, respawns), events, dispatch);
            && Sound(s)
            && forall i, j :: 0 <= i < j < |s.calls| && Ends(s.calls[i]) ==> !Names(s.calls[j], s.calls[i].window)
    decreases |events|
  {
    hide Sound, Start, HandleMessage, ClosedByUser, Names;
    var s := Run(Start(name, packet, respawns), events, dispatch);
    if events == [] {
      StartSound(name, packet, respawns);
    } else {
      var init := events[..|events| - 1];
      RunSound(name, packet, respawns, init, dispatch);
      RunKeeps(name, packet, respawns, init, dispatch);
      var before := Run(Start(name, packet, respawns), init, dispatch);
      match events[|events| - 1]
      case Message(message) => MessageSound(before, message, dispatch);
      case Destroyed(window) => ClosedSound(before, window);
    }
    SoundCalls(s);
  }

  lemma SoundCalls(s: Loop)
    requires Sound(s)
    ensures forall i, j :: 0 <= i < j < |s.calls| && Ends(s.calls[i]) ==> !Names(s.calls[j], s.calls[i].window)
  {
    hide Names, Inv, Registered;
  }

  /** From the moment a user closes a window, no call of the run names it. */
  lemma ClosedIsFinal(name: bytes, packet: bytes, respawns: bool, before: seq<Event>, window: Handle,
                      after: seq<Event>, dispatch: Dispatch)
    requires 0 < window < Run(Start(name, packet, respawns), before, dispatch).next
    ensures var start := Start(name, packet, respawns);
            var s := Run(start, before, dispatch);
            var t := Run(start, before + [Destroyed(window)] + after, dispatch);
            && s.calls + [Closed(window)] <= t.calls
            && forall j :: |s.calls| < j < |t.calls| ==> !Names(t.calls[j], window)
  {
    hide Sound, Start, Run, WindowDestroyed, Names, Inv;
    var start := Start(name, packet, respawns);
    var s := Run(start, before, dispatch);
    var closed := before + [Destroyed(window)];
    RunGrows(name, packet, respawns, closed, after, dispatch);
    assert Run(start, closed, dispatch) == ClosedByUser(s, window) by { RunOneMore(start, before, window, dispatch); }
    DestroyOnward(Log(s, Closed(window)), window);
    var t := Run(start, closed + after, dispatch);
    assert s.calls + [Closed(window)] <= t.calls;
    assert t.calls[|s.calls|] == Closed(window);
    RunSound(name, packet, respawns, closed + after, dispatch);
  }

  lemma RunOneMore(start: Loop, before: seq<Event>, window: Handle, dispatch: Dispatch)
    ensures Run(start, before + [Destroyed(window)], dispatch) == ClosedByUser(Run(start, before, dispatch), window)
  {
    hide ClosedByUser;
    assert (before + [Destroyed(window)])[..|before|] == before;
  }

  lemma StartSound(name: bytes, packet: bytes, respawns: bool)
    ensures Sound(Start(name, packet, respawns))
  {
    hide ApplyPass, Inv;
    var s := MainWindow(name, respawns);
    MainWindowHolds(name, respawns);
    assert |s.slots| == 1 && s.slots[0].window == 1 && s.slots[0].webview == 2 && s.calls == [];
    PassSound(Opens, s, packet);
  }

  // ----- which window an operation reaches -----

  /** A non-empty label reaches the window that bears it exactly when some window does; otherwise the
      operation falls on the first window. */
  lemma TargetExact(slots: seq<Slot>, name: bytes)
    requires slots != []
    ensures name != [] ==>
              (slots[Target(slots, name).value].name == name <==> exists k :: 0 <= k < |slots| && slots[k].name == name)
    ensures (forall k :: 0 <= k < |slots| ==> slots[k].name != name) ==> Target(slots, name) == Some(0)
  {
    hide FindExact;
  }

  /** So closing a window that is closed already closes the first one. */
  lemma SecondCloseHitsFirst(s: Loop, r: Record)
    requires Inv(s) && s.slots != [] && r.kind == Words.CLOSE_WINDOW
    requires forall k :: 0 <= k < |s.slots| ==> s.slots[k].name != r.window
    ensures Control(Progress(s, false), r) == Progress(DestroyWidget(s, s.slots[0].window), true)
  {
    hide FindExact, DestroyWidget, QuitSafe, DrainsConserved, MenusShown;
    TargetExact(s.slots, r.window);
    LiveWindows(s);
  }

  /** An opened window is registered exactly when the table had room. Without room it is shown all the
      same, but no record reaches it and it does not hold off quitting. */
  lemma OpenRegistersExact(s: Loop, r: Record)
    requires Inv(s) && Opening(s, r)
    ensures var t := Open(s, r);
            && t.calls[|s.calls|].OpenWindow? && t.calls[|s.calls|].window == s.next
            && (Registered(t, s.next) <==> |s.slots| < MAX_WINDOWS)
            && (|s.slots| >= MAX_WINDOWS ==> t.slots == s.slots)
  {
    hide Open, Opening, NewSlot, QuitSafe, DrainsConserved, MenusShown;
    OpenShape(s, r);
    NewSlotPaired(s, r.window);
    LiveWindows(s);
    var t := Open(s, r);
    if |s.slots| < MAX_WINDOWS {
      assert t.slots[|s.slots|].window == s.next;
    }
  }
}
