/** A run that ends with a window nobody listens to: two drain requests, the answer to the first closes the
    last window, and the answer to the second opens one. */
module LateWindow {
  import opened Results
  import opened Bytes
  import opened Words
  import opened PacketCodec
  import opened LoopSpec
  import opened LoopInvariants
  import opened LoopRuns
  import opened LoopTheorems
  import opened PacketEffects

  // ----- the three packets -----

  /** The answer to the n-th drain request, whatever its bytes. */
  ghost predicate Answers(dispatch: Dispatch, n: nat, packet: bytes) {
    forall text :: dispatch(n, text) == packet
  }

  predicate IsDrain(r: Record) {
    r.kind == DRAIN_BRIDGE_WINDOW && r.action != []
  }

  lemma PassKinds(r: Record)
    ensures r.kind == DRAIN_BRIDGE_WINDOW ==> PassOf(r) == Some(Drains)
    ensures r.kind == CLOSE_WINDOW ==> PassOf(r) == Some(Controls)
    ensures r.kind == OPEN_WINDOW ==> PassOf(r) == Some(Opens)
  {
    hide Ascii;
    KindWords();
    PacketEffects.Kinds(r);
  }

  lemma TwoDrains(s: Loop, packet: bytes, a: Record, b: Record)
    requires Visited(packet, LINUX_STATUSES) == [a, b] && IsDrain(a) && IsDrain(b) && s.drains == []
    ensures var t := ApplyOperations(s, packet);
            |t.drains| == 2 && t == s.(drains := t.drains, accepted := t.accepted)
  {
    hide ApplyOperations, PassOf, Visited, Stored;
    PassKinds(a);
    PassKinds(b);
    OnlyPass(s, packet, Drains);
    var p := Step(Drains, Progress(s, false), a);
    var q := Step(Drains, p, b);
    assert [a, b][1..] == [b] && [b][1..] == [] && Steps(Drains, q, []) == q;
    assert Steps(Drains, p, [b]) == q;
  }

  /** Closing the only window. */
  lemma CloseAnswer(s: Loop, packet: bytes, r: Record)
    requires Inv(s) && |s.slots| == 1 && s.primary != 0
    requires Visited(packet, LINUX_STATUSES) == [r] && r.kind == CLOSE_WINDOW
    ensures var t := ApplyOperations(s, packet); t.slots == [] && t.primary == 0 && t.drains == s.drains
  {
    hide ApplyOperations, PassOf, Visited, DestroyWidget, QuitSafe, DrainsConserved, MenusShown, Windows;
    PassKinds(r);
    SingleRecord(s, packet, Controls, r);
    DestroyLast(s);
  }

  /** Opening a window on an empty table. */
  lemma OpenAnswer(s: Loop, packet: bytes, r: Record)
    requires Inv(s) && s.slots == []
    requires Visited(packet, LINUX_STATUSES) == [r] && r.kind == OPEN_WINDOW && r.window != [] && r.url != []
    ensures var t := ApplyOperations(s, packet); t == Open(s, r) && t.drains == s.drains
  {
    hide ApplyOperations, PassOf, Visited, Open, NewSlot, Inv;
    PassKinds(r);
    SingleRecord(s, packet, Opens, r);
    OpenShape(s, r);
  }

  lemma ScriptOnly(s: Loop, packet: bytes, view: Handle)
    ensures var t := RunImmediate(s, packet, view); t == s.(calls := t.calls)
  {}

  // ----- the run -----

  lemma RoundsStop(s: Loop, dispatch: Dispatch, n: nat)
    requires n > 0 && s.drains != [] && Round(s, dispatch).drains == []
    ensures Rounds(s, dispatch, n) == Round(s, dispatch)
  {
    hide Round;
    assert Rounds(Round(s, dispatch), dispatch, n - 1) == Round(s, dispatch);
  }

  /** From any state with one window, live, and an empty queue. */
  lemma LateWindowFrom(s: Loop, drains: bytes, close: bytes, open: bytes, a: Record, b: Record, c: Record, o: Record,
                       dispatch: Dispatch)
    requires Inv(s) && s.inFlight == [] && s.drains == [] && |s.slots| == 1 && s.primary != 0
    requires Visited(drains, LINUX_STATUSES) == [a, b] && IsDrain(a) && IsDrain(b)
    requires Visited(close, LINUX_STATUSES) == [c] && c.kind == CLOSE_WINDOW
    requires Visited(open, LINUX_STATUSES) == [o] && o.kind == OPEN_WINDOW && o.window != [] && o.url != []
    requires Answers(dispatch, |s.dispatched|, close)
    requires Answers(dispatch, |s.dispatched| + 1, open)
    ensures var t := HandleMessage(s, drains, dispatch);
            |t.slots| == 1 && t.primary == 0 && Inv(t) && t.inFlight == []
  {
    hide Inv, ApplyOperations, Visited, RunImmediate, ViewOf, PacketWindow, Rounds, Open;
    PrimaryExists(s);
    var view := ViewOf(s, PacketWindow(drains));
    var started := RunImmediate(s, drains, view);
    ScriptOnly(s, drains, view);
    ImmediateKeeps(s, drains, view);
    TwoDrains(started, drains, a, b);
    OperationsKeep(started, drains);
    var asked := ApplyOperations(started, drains);
    TakeKeeps(asked);
    var taken := asked.(inFlight := asked.drains, drains := []);
    var closed := DispatchOne(taken, dispatch);
    SendsClose(taken, close, c, dispatch);
    DispatchOneKeeps(taken, dispatch);
    assert |closed.dispatched| == |s.dispatched| + 1;
    SendsOpen(closed, open, o, dispatch);
    DispatchOneKeeps(closed, dispatch);
    assert Round(asked, dispatch) == DispatchOne(closed, dispatch) by { TwoSent(asked, dispatch); }
    RoundsStop(asked, dispatch, MAX_ROUNDS);
  }

  lemma TwoSent(s: Loop, dispatch: Dispatch)
    requires |s.drains| == 2
    requires var t := s.(inFlight := s.drains, drains := []);
             DispatchOne(t, dispatch).inFlight == s.drains[1..]
    ensures var t := s.(inFlight := s.drains, drains := []);
            Round(s, dispatch) == DispatchOne(DispatchOne(t, dispatch), dispatch)
  {
    hide DispatchOne;
    var t := s.(inFlight := s.drains, drains := []);
    var u := DispatchOne(t, dispatch);
    var v := DispatchOne(u, dispatch);
    assert DispatchBatch(v, dispatch, 0) == v;
    assert DispatchBatch(u, dispatch, 1) == v;
  }

  lemma SendsClose(s: Loop, packet: bytes, r: Record, dispatch: Dispatch)
    requires Inv(s) && s.inFlight != [] && s.drains == [] && |s.slots| == 1 && s.primary != 0
    requires Visited(packet, LINUX_STATUSES) == [r] && r.kind == CLOSE_WINDOW
    requires Answers(dispatch, |s.dispatched|, packet)
    ensures var t := DispatchOne(s, dispatch); t.slots == [] && t.primary == 0 && t.drains == []
  {
    hide Inv, ApplyOperations, Visited, RunImmediate, ViewOf;
    SendKeeps(s);
    var sent := s.(inFlight := s.inFlight[1..], dispatched := s.dispatched + [s.inFlight[0]]);
    var view := ViewOf(sent, s.inFlight[0].window);
    ScriptOnly(sent, packet, view);
    ImmediateKeeps(sent, packet, view);
    CloseAnswer(RunImmediate(sent, packet, view), packet, r);
  }

  lemma SendsOpen(s: Loop, packet: bytes, r: Record, dispatch: Dispatch)
    requires Inv(s) && s.inFlight != [] && s.drains == [] && s.slots == []
    requires Visited(packet, LINUX_STATUSES) == [r] && r.kind == OPEN_WINDOW && r.window != [] && r.url != []
    requires Answers(dispatch, |s.dispatched|, packet)
    ensures var t := DispatchOne(s, dispatch); |t.slots| == 1 && t.primary == 0 && t.drains == []
  {
    hide Inv, ApplyOperations, Visited, RunImmediate, ViewOf, Open;
    SendKeeps(s);
    var sent := s.(inFlight := s.inFlight[1..], dispatched := s.dispatched + [s.inFlight[0]]);
    var view := ViewOf(sent, s.inFlight[0].window);
    ScriptOnly(sent, packet, view);
    ImmediateKeeps(sent, packet, view);
    var started := RunImmediate(sent, packet, view);
    OpenAnswer(started, packet, r);
    LateWindowIsDeaf(started, r, packet, dispatch);
  }

  function Packet(records: seq<Record>): bytes {
    EncodeHandoff(IMMEDIATE, [], [], records)
  }

  lemma PacketVisited(records: seq<Record>)
    requires |Packet(records)| <= INT32_MAX
    ensures Visited(Packet(records), LINUX_STATUSES) == records
  {
    hide EncodeHandoff, Visited;
    assert IMMEDIATE in LINUX_STATUSES && NEWLINE !in IMMEDIATE;
    StatusDecides(LINUX_STATUSES, IMMEDIATE, [], [], records);
  }

  lemma AtStart(name: bytes, respawns: bool)
    ensures var s := Start(name, [], respawns);
            && Inv(s) && s.inFlight == [] && s.drains == [] && |s.slots| == 1 && s.primary != 0 && s.dispatched == []
  {
    hide Inv, Visited, CString, Stored;
    MainWindowHolds(name, respawns);
    assert Visited([], LINUX_STATUSES) == [] by { NothingVisited([], LINUX_STATUSES); }
  }

  lemma Deaf(s: Loop, packet: bytes, dispatch: Dispatch)
    requires Inv(s) && s.primary == 0
    ensures HandleMessage(s, packet, dispatch) == s
  {
    hide HandleMessage, Inv;
    PrimaryExists(s);
    assert HandleMessage(s, packet, dispatch) == s by { NoView(s, packet, dispatch); }
  }

  lemma NoView(s: Loop, packet: bytes, dispatch: Dispatch)
    requires s.primaryView == 0
    ensures HandleMessage(s, packet, dispatch) == s
  {}

  /** The run, for any two drain requests, any closing and any opening record: afterwards a window is
      registered, there is no primary window, and no message changes anything any more. */
  lemma LateWindowReached(name: bytes, respawns: bool, a: Record, b: Record, c: Record, o: Record, dispatch: Dispatch)
    requires IsDrain(a) && IsDrain(b) && c.kind == CLOSE_WINDOW
    requires o.kind == OPEN_WINDOW && o.window != [] && o.url != []
    requires |Packet([a, b])| <= INT32_MAX && |Packet([c])| <= INT32_MAX && |Packet([o])| <= INT32_MAX
    requires Answers(dispatch, 0, Packet([c]))
    requires Answers(dispatch, 1, Packet([o]))
    ensures var t := Run(Start(name, [], respawns), [Message(Packet([a, b]))], dispatch);
            && |t.slots| == 1 && t.primary == 0
            && forall packet, other :: HandleMessage(t, packet, other) == t
  {
    hide Start, HandleMessage, Packet, Visited, Inv;
    var s := Start(name, [], respawns);
    AtStart(name, respawns);
    PacketVisited([a, b]);
    PacketVisited([c]);
    PacketVisited([o]);
    LateWindowFrom(s, Packet([a, b]), Packet([c]), Packet([o]), a, b, c, o, dispatch);
    var t := HandleMessage(s, Packet([a, b]), dispatch);
    assert Run(s, [Message(Packet([a, b]))], dispatch) == t by { OneMessage(s, Packet([a, b]), dispatch); }
    forall packet, other ensures HandleMessage(t, packet, other) == t {
      Deaf(t, packet, other);
    }
  }

  lemma OneMessage(s: Loop, packet: bytes, dispatch: Dispatch)
    ensures Run(s, [Message(packet)], dispatch) == HandleMessage(s, packet, dispatch)
  {
    hide HandleMessage;
    var events := [Message(packet)];
    assert events[..0] == [] && Run(s, events[..0], dispatch) == s;
  }
}
