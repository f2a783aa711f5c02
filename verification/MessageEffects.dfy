/** What a whole message does: the label line decides where its script runs, the script runs before the
    operations, and drain requests are answered in the same way. */
module MessageEffects {
  import opened Results
  import opened Bytes
  import opened Words
  import opened PacketCodec
  import opened HandoffScript
  import opened LoopSpec
  import opened LoopInvariants
  import opened LoopRuns
  import opened PacketEffects

  /** The label a packet is for is its second line: it comes back exactly when it holds no newline. */
  lemma PacketWindowExact(status: bytes, window: bytes, body: bytes, records: seq<Record>)
    requires NEWLINE !in status
    ensures PacketWindow(EncodeHandoff(status, window, body, records)) == window <==> NEWLINE !in window
  {
    hide ReadLine, At, Layout, EncodeOperations, LengthLine;
    var p := EncodeHandoff(status, window, body, records);
    HeaderLayout(p, status, window, LengthLine(|body|), body, [NEWLINE] + EncodeOperations(records));
    ReadsLine(p, 0, status);
    if NEWLINE !in window {
      ReadsLine(p, |status| + 1, window);
    } else if ReadLine(p, |status| + 1).Line? {
      LineHoldsNoNewline(p, |status| + 1);
    }
  }

  /** A packet without a second line is for no window in particular. */
  lemma NoPacketWindow(packet: bytes)
    requires forall k, l :: 0 <= k < l < |packet| ==> packet[k] != NEWLINE || packet[l] != NEWLINE
    ensures PacketWindow(packet) == []
  {
    hide FindNewline;
  }

  /** A packet whose script and window are C strings. */
  ghost predicate Immediate(packet: bytes, window: bytes, body: bytes, records: seq<Record>) {
    && packet == EncodeHandoff(Ascii("immediate"), window, body, records) && |packet| <= INT32_MAX
    && NEWLINE !in window && NUL !in window && NUL !in body
  }

  lemma ImmediateRead(packet: bytes, window: bytes, body: bytes, records: seq<Record>)
    requires Immediate(packet, window, body, records)
    ensures ImmediateScript(packet) == Some(body) && PacketWindow(packet) == window
  {
    hide EncodeHandoff, ImmediateScript, PacketWindow, Ascii;
    PacketWords();
    assert NEWLINE !in IMMEDIATE;
    ImmediateScriptExact(window, body, records);
    PacketWindowExact(IMMEDIATE, window, body, records);
  }

  /** The view of the window that bears the label, or else of the first. */
  lemma ViewReached(s: Loop, name: bytes, i: nat)
    requires Inv(s) && Reached(s.slots, name, i)
    ensures ViewOf(s, name) == s.slots[i].webview != 0
  {
    hide Reached, Target, QuitSafe, DrainsConserved, MenusShown;
    ReachedExact(s.slots, name, i);
    assert LiveSlot(s.slots[i], s.next);
  }

  /** The first call a message makes is to run its script, in the view of the window named in its second line
      or else of the first window; its operations and the drains follow. */
  lemma MessageEffect(s: Loop, packet: bytes, window: bytes, body: bytes, records: seq<Record>, i: nat,
                      dispatch: Dispatch)
    requires Inv(s) && s.inFlight == [] && s.primary != 0
    requires Immediate(packet, window, body, records) && Reached(s.slots, window, i)
    ensures var started := s.(calls := s.calls + [RunScript(s.slots[i].webview, body)]);
            && HandleMessage(s, packet, dispatch) == ProcessDrains(ApplyOperations(started, packet), dispatch)
            && started.calls <= HandleMessage(s, packet, dispatch).calls
  {
    hide Inv, Immediate, Reached, ApplyOperations, ProcessDrains, ImmediateScript, PacketWindow, ViewOf;
    ImmediateRead(packet, window, body, records);
    ViewReached(s, window, i);
    assert s.primaryView != 0 by { HasView(s); }
    var view := ViewOf(s, window);
    var started := RunImmediate(s, packet, view);
    ImmediateKeeps(s, packet, view);
    OperationsKeep(started, packet);
    ProcessDrainsConserves(ApplyOperations(started, packet), dispatch);
  }

  lemma HasView(s: Loop)
    requires Inv(s) && s.primary != 0
    ensures s.primaryView != 0
  {}

  /** A packet with another status, such as `deferred`, runs no script and carries out nothing; what is left
      to do is the drain queue. */
  lemma OtherStatusEffect(s: Loop, status: bytes, window: bytes, body: bytes, records: seq<Record>, dispatch: Dispatch)
    requires s.primaryView != 0
    requires NEWLINE !in status && NUL !in status && NEWLINE !in window && status != Ascii("immediate")
    requires |EncodeHandoff(status, window, body, records)| <= INT32_MAX
    ensures HandleMessage(s, EncodeHandoff(status, window, body, records), dispatch) == ProcessDrains(s, dispatch)
  {
    hide EncodeHandoff, ApplyOperations, ProcessDrains, ImmediateScript, PacketWindow, ViewOf, Visited, Ascii;
    var p := EncodeHandoff(status, window, body, records);
    PacketWords();
    StatusDecides(LINUX_STATUSES, status, window, body, records);
    NoScript(status, window, body, records);
    assert ApplyOperations(s, p) == s by { NothingApplied(s, p); }
  }

  lemma NothingApplied(s: Loop, packet: bytes)
    requires Visited(packet, LINUX_STATUSES) == []
    ensures ApplyOperations(s, packet) == s
  {
    hide ApplyPass, Visited;
    forall pass: Pass ensures ApplyPass(pass, s, packet) == s {
      PassIgnores(pass, s, packet);
    }
  }

  lemma NoScript(status: bytes, window: bytes, body: bytes, records: seq<Record>)
    requires NEWLINE !in status && NUL !in status && status != IMMEDIATE
    ensures ImmediateScript(EncodeHandoff(status, window, body, records)) == None
  {
    hide At, Layout, EncodeOperations, LengthLine, CString, FindNewline, WholeLong;
    var p := EncodeHandoff(status, window, body, records);
    HeaderLayout(p, status, window, LengthLine(|body|), body, [NEWLINE] + EncodeOperations(records));
    ReadsLine(p, 0, status);
    if ReadLine(CString(p), 0).Line? {
      LineInPrefix(CString(p), p, 0);
    }
  }

  // ----- drain requests -----

  /** The oldest request is answered by the packet the runtime gives for `lepusa-drain-v1` and the label; the
      answer's script runs in the view of the window that asked, before the answer's operations. */
  lemma DispatchEffect(s: Loop, dispatch: Dispatch, window: bytes, body: bytes, records: seq<Record>, i: nat)
    requires Inv(s) && s.inFlight != [] && Reached(s.slots, s.inFlight[0].window, i)
    requires Immediate(dispatch(|s.dispatched|, Ascii("lepusa-drain-v1\n") + s.inFlight[0].window),
                       window, body, records)
    ensures var packet := dispatch(|s.dispatched|, Ascii("lepusa-drain-v1\n") + s.inFlight[0].window);
            var started := s.(inFlight := s.inFlight[1..], dispatched := s.dispatched + [s.inFlight[0]],
                              calls := s.calls + [RunScript(s.slots[i].webview, body)]);
            && DispatchOne(s, dispatch) == ApplyOperations(started, packet)
            && started.calls <= DispatchOne(s, dispatch).calls
  {
    hide Inv, Immediate, Reached, ApplyOperations, ImmediateScript, PacketWindow, ViewOf, Ascii;
    PacketWords();
    var packet := dispatch(|s.dispatched|, DRAIN_PREFIX + s.inFlight[0].window);
    ImmediateRead(packet, window, body, records);
    SendKeeps(s);
    var sent := s.(inFlight := s.inFlight[1..], dispatched := s.dispatched + [s.inFlight[0]]);
    ViewReached(sent, s.inFlight[0].window, i);
    var view := ViewOf(sent, s.inFlight[0].window);
    ImmediateKeeps(sent, packet, view);
    OperationsKeep(RunImmediate(sent, packet, view), packet);
  }
}
