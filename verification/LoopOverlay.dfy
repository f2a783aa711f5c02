/** The menu overlay over passes, packets, drain rounds, messages and runs: no menu step drifts exactly when
    every window shows what was asked for in every state the run goes through. */
module LoopOverlay {
  import opened Bytes
  import opened PacketCodec
  import opened LoopSpec
  import opened LoopInvariants
  import opened LoopRuns
  import opened LoopTheorems
  import Words

  // ----- the states gone through -----

  /** The overlay holds before and after every record. */
  ghost predicate StepsShow(pass: Pass, p: Progress, records: seq<Record>) {
    forall k :: 0 <= k <= |records| ==> Shows(Steps(pass, p, records[..k]).s)
  }

  ghost predicate PassShows(pass: Pass, s: Loop, packet: bytes) {
    if Enabled(pass, s) then StepsShow(pass, Progress(s, false), Visited(packet, LINUX_STATUSES)) else Shows(s)
  }

  ghost predicate OperationsShow(s: Loop, packet: bytes) {
    var s1 := ApplyPass(Scripts, s, packet);
    var s2 := ApplyPass(Drains, s1, packet);
    var s3 := ApplyPass(Opens, s2, packet);
    var s4 := ApplyPass(Controls, s3, packet);
    var s5 := ApplyPass(Navigations, s4, packet);
    && PassShows(Scripts, s, packet) && PassShows(Drains, s1, packet) && PassShows(Opens, s2, packet)
    && PassShows(Controls, s3, packet) && PassShows(Navigations, s4, packet) && PassShows(Shell, s5, packet)
  }

  /** Over one request of the batch in flight and the operations of its answer. */
  ghost predicate OneShows(s: Loop, dispatch: Dispatch)
    requires s.inFlight != []
  {
    var request := s.inFlight[0];
    var packet := dispatch(|s.dispatched|, Words.DRAIN_PREFIX + request.window);
    var sent := s.(inFlight := s.inFlight[1..], dispatched := s.dispatched + [request]);
    OperationsShow(RunImmediate(sent, packet, ViewOf(sent, request.window)), packet)
  }

  ghost predicate BatchShows(s: Loop, dispatch: Dispatch, n: nat)
    decreases n
  {
    && Shows(s)
    && (n > 0 && s.inFlight != [] ==> OneShows(s, dispatch) && BatchShows(DispatchOne(s, dispatch), dispatch, n - 1))
  }

  ghost predicate RoundsShow(s: Loop, dispatch: Dispatch, n: nat)
    decreases n
  {
    && Shows(s)
    && (n > 0 && s.drains != [] ==>
          && BatchShows(s.(inFlight := s.drains, drains := []), dispatch, |s.drains|)
          && RoundsShow(Round(s, dispatch), dispatch, n - 1))
  }

  ghost predicate EventShows(s: Loop, event: Event, dispatch: Dispatch) {
    match event
    case Destroyed(window) => Shows(ClosedByUser(s, window))
    case Message(packet) =>
      s.primaryView != 0 ==>
        var started := RunImmediate(s, packet, ViewOf(s, PacketWindow(packet)));
        OperationsShow(started, packet) && RoundsShow(ApplyOperations(started, packet), dispatch, MAX_ROUNDS)
  }

  /** Over the start-up packet and every event of the run. */
  ghost predicate AlwaysShows(name: bytes, packet: bytes, respawns: bool, events: seq<Event>, dispatch: Dispatch)
    decreases |events|
  {
    if events == [] then PassShows(Opens, MainWindow(name, respawns), packet)
    else
      var init := events[..|events| - 1];
      && AlwaysShows(name, packet, respawns, init, dispatch)
      && EventShows(Run(Start(name, packet, respawns), init, dispatch), events[|events| - 1], dispatch)
  }

  // ----- no drift exactly when it always shows -----

  lemma PassShowsExact(pass: Pass, s: Loop, packet: bytes)
    requires Inv(s)
    ensures var t := ApplyPass(pass, s, packet);
            && Inv(t) && (s.drifted ==> t.drifted)
            && (!s.drifted ==> (!t.drifted <==> PassShows(pass, s, packet)))
  {
    hide Inv, Shows, Onward, Steps, Visited;
    PassKeeps(pass, s, packet);
    if s.drifted {
      DriftStays(s, ApplyPass(pass, s, packet));
    } else {
      NoDriftShows(s);
      RecordsShowExact(pass, Progress(s, false), Visited(packet, LINUX_STATUSES));
    }
  }

  lemma OperationsShowExact(s: Loop, packet: bytes)
    requires Inv(s) && !s.drifted
    ensures !ApplyOperations(s, packet).drifted <==> OperationsShow(s, packet)
  {
    hide Inv, ApplyPass, PassShows;
    var s1 := ApplyPass(Scripts, s, packet);
    var s2 := ApplyPass(Drains, s1, packet);
    var s3 := ApplyPass(Opens, s2, packet);
    var s4 := ApplyPass(Controls, s3, packet);
    var s5 := ApplyPass(Navigations, s4, packet);
    PassShowsExact(Scripts, s, packet);
    PassShowsExact(Drains, s1, packet);
    PassShowsExact(Opens, s2, packet);
    PassShowsExact(Controls, s3, packet);
    PassShowsExact(Navigations, s4, packet);
    PassShowsExact(Shell, s5, packet);
  }

  lemma ImmediateNeverDrifts(s: Loop, packet: bytes, view: Handle)
    requires Inv(s)
    ensures Inv(RunImmediate(s, packet, view)) && RunImmediate(s, packet, view).drifted == s.drifted
  {
    hide Inv, Onward, Visited;
    ImmediateKeeps(s, packet, view);
  }

  lemma OneShowsExact(s: Loop, dispatch: Dispatch)
    requires Inv(s) && s.inFlight != [] && !s.drifted
    ensures !DispatchOne(s, dispatch).drifted <==> OneShows(s, dispatch)
  {
    hide Inv, ApplyOperations, OperationsShow, RunImmediate, ViewOf;
    SendKeeps(s);
    var request := s.inFlight[0];
    var packet := dispatch(|s.dispatched|, Words.DRAIN_PREFIX + request.window);
    var sent := s.(inFlight := s.inFlight[1..], dispatched := s.dispatched + [request]);
    ImmediateNeverDrifts(sent, packet, ViewOf(sent, request.window));
    OperationsShowExact(RunImmediate(sent, packet, ViewOf(sent, request.window)), packet);
  }

  lemma {:induction false} BatchShowsExact(s: Loop, dispatch: Dispatch, n: nat)
    requires Inv(s) && n == |s.inFlight| && !s.drifted
    ensures !DispatchBatch(s, dispatch, n).drifted <==> BatchShows(s, dispatch, n)
    decreases n
  {
    hide Inv, Shows, DispatchOne, OneShows;
    NoDriftShows(s);
    if n > 0 {
      var t := DispatchOne(s, dispatch);
      DispatchOneKeeps(s, dispatch);
      OneShowsExact(s, dispatch);
      if t.drifted {
        DispatchBatchKeeps(t, dispatch, n - 1);
      } else {
        BatchShowsExact(t, dispatch, n - 1);
      }
    }
  }

  lemma {:induction false} RoundsShowExact(s: Loop, dispatch: Dispatch, n: nat)
    requires Inv(s) && s.inFlight == [] && !s.drifted
    ensures !Rounds(s, dispatch, n).drifted <==> RoundsShow(s, dispatch, n)
    decreases n
  {
    hide Inv, Shows, DispatchBatch, BatchShows;
    NoDriftShows(s);
    if n > 0 && s.drains != [] {
      TakeKeeps(s);
      RoundKeeps(s, dispatch);
      BatchShowsExact(s.(inFlight := s.drains, drains := []), dispatch, |s.drains|);
      var t := Round(s, dispatch);
      if t.drifted {
        RoundsKeep(t, dispatch, n - 1);
      } else {
        RoundsShowExact(t, dispatch, n - 1);
      }
    }
  }

  lemma EventShowsExact(s: Loop, event: Event, dispatch: Dispatch)
    requires Inv(s) && s.inFlight == [] && !s.drifted
    ensures !React(s, event, dispatch).drifted <==> EventShows(s, event, dispatch)
  {
    hide Inv, Shows, RunImmediate, ApplyOperations, OperationsShow, Rounds, RoundsShow, ViewOf, PacketWindow,
         WindowDestroyed;
    match event
    case Destroyed(window) =>
      ClosedKeeps(s, window);
      ClosedNeverDrifts(s, window);
      NoDriftShows(ClosedByUser(s, window));
    case Message(packet) =>
      if s.primaryView != 0 {
        var view := ViewOf(s, PacketWindow(packet));
        var started := RunImmediate(s, packet, view);
        ImmediateNeverDrifts(s, packet, view);
        ImmediateKeeps(s, packet, view);
        OperationsShowExact(started, packet);
        OperationsKeep(started, packet);
        var t := ApplyOperations(started, packet);
        if t.drifted {
          ProcessDrainsConserves(t, dispatch);
        } else {
          RoundsShowExact(t, dispatch, MAX_ROUNDS);
        }
      }
  }

  lemma ClosedNeverDrifts(s: Loop, window: Handle)
    ensures ClosedByUser(s, window).drifted == s.drifted
  {
    hide RemoveSlot;
    RemoveFrame(s, window);
    RemoveFrame(Log(s, Closed(window)), window);
  }

  /** In every run no menu step drifts exactly when every live window shows its own menu if it has one set,
      and otherwise the application menu or none, in every state from the first record of the start-up
      packet to the last record of the last answer. */
  lemma {:induction false} AlwaysShowsExact(name: bytes, packet: bytes, respawns: bool, events: seq<Event>,
                                            dispatch: Dispatch)
    ensures !Run(Start(name, packet, respawns), events, dispatch).drifted <==>
            AlwaysShows(name, packet, respawns, events, dispatch)
    decreases |events|
  {
    hide Inv, Start, React, EventShows, PassShows;
    if events == [] {
      StartShowsExact(name, packet, respawns);
    } else {
      var init := events[..|events| - 1];
      AlwaysShowsExact(name, packet, respawns, init, dispatch);
      RunKeeps(name, packet, respawns, init, dispatch);
      var s := Run(Start(name, packet, respawns), init, dispatch);
      if s.drifted {
        ReactGrows(s, events[|events| - 1], dispatch);
      } else {
        EventShowsExact(s, events[|events| - 1], dispatch);
      }
    }
  }

  lemma StartShowsExact(name: bytes, packet: bytes, respawns: bool)
    ensures !Start(name, packet, respawns).drifted <==> PassShows(Opens, MainWindow(name, respawns), packet)
  {
    hide Inv, ApplyPass, PassShows, CString, Stored;
    MainWindowHolds(name, respawns);
    PassShowsExact(Opens, MainWindow(name, respawns), packet);
  }
}
