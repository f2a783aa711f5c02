/** What a packet does, from its bytes to the toolkit call: one record of each kind, told apart by the words
    the source writes, and the order in which a message's script and operations arrive. */
module PacketEffects {
  import opened Results
  import opened Bytes
  import opened Words
  import opened PacketCodec
  import opened HandoffScript
  import opened LoopSpec
  import opened LoopInvariants
  import opened LoopRuns
  import opened LoopTheorems
  import Decimal

  // ----- packets of one kind of record -----

  lemma {:induction false} StepsIgnore(pass: Pass, p: Progress, records: seq<Record>)
    requires forall i :: 0 <= i < |records| ==> PassOf(records[i]) != Some(pass)
    ensures Steps(pass, p, records) == p
    decreases |records|
  {
    hide Step, PassOf;
    if records != [] {
      StepIgnores(pass, p, records[0]);
      StepsIgnore(pass, p, records[1..]);
    }
  }

  lemma PassIgnores(pass: Pass, s: Loop, packet: bytes)
    requires var records := Visited(packet, LINUX_STATUSES);
             forall i :: 0 <= i < |records| ==> PassOf(records[i]) != Some(pass)
    ensures ApplyPass(pass, s, packet) == s
  {
    hide Steps, PassOf, Visited;
    StepsIgnore(pass, Progress(s, false), Visited(packet, LINUX_STATUSES));
  }

  /** If all records are of one pass, carrying out the packet is that pass. */
  lemma OnlyPass(s: Loop, packet: bytes, pass: Pass)
    requires var records := Visited(packet, LINUX_STATUSES);
             forall i :: 0 <= i < |records| ==> PassOf(records[i]) == Some(pass)
    ensures ApplyOperations(s, packet) == ApplyPass(pass, s, packet)
  {
    hide ApplyPass, PassOf, Visited;
    var t := ApplyPass(pass, s, packet);
    forall other: Pass | other != pass ensures ApplyPass(other, s, packet) == s && ApplyPass(other, t, packet) == t {
      PassIgnores(other, s, packet);
      PassIgnores(other, t, packet);
    }
  }

  lemma SingleRecord(s: Loop, packet: bytes, pass: Pass, r: Record)
    requires Visited(packet, LINUX_STATUSES) == [r] && PassOf(r) == Some(pass)
    ensures ApplyOperations(s, packet) == if Enabled(pass, s) then Step(pass, Progress(s, false), r).s else s
  {
    hide ApplyOperations, Step, PassOf, Visited, Enabled;
    OnlyPass(s, packet, pass);
    var p := Step(pass, Progress(s, false), r);
    assert [r][1..] == [] && Steps(pass, p, []) == p;
  }

  /** The runtime's packet with these records, whatever its window and body. */
  ghost predicate Carries(packet: bytes, records: seq<Record>) {
    && |packet| <= INT32_MAX
    && exists window, body :: NEWLINE !in window && packet == EncodeHandoff(Ascii("immediate"), window, body, records)
  }

  lemma CarriesVisited(packet: bytes, records: seq<Record>)
    requires Carries(packet, records)
    ensures Visited(packet, LINUX_STATUSES) == records
  {
    hide EncodeHandoff, Visited;
    PacketWords();
    var window, body :| NEWLINE !in window &&
      packet == EncodeHandoff(Ascii("immediate"), window, body, records);
    assert IMMEDIATE in LINUX_STATUSES && NEWLINE !in IMMEDIATE;
    StatusDecides(LINUX_STATUSES, IMMEDIATE, window, body, records);
  }

  lemma Kinds(r: Record)
    ensures r.kind == Ascii("evaluate-script") ==> r.kind == EVALUATE_SCRIPT && PassOf(r) == Some(Scripts)
    ensures r.kind == Ascii("drain-bridge-window") ==> r.kind == DRAIN_BRIDGE_WINDOW && PassOf(r) == Some(Drains)
    ensures r.kind == Ascii("open-window") ==> r.kind == OPEN_WINDOW && PassOf(r) == Some(Opens)
    ensures r.kind == Ascii("close-window") ==> r.kind == CLOSE_WINDOW && PassOf(r) == Some(Controls)
    ensures r.kind == Ascii("window-control") ==> r.kind == WINDOW_CONTROL && PassOf(r) == Some(Controls)
    ensures r.kind == Ascii("navigate-window") ==> r.kind == NAVIGATE_WINDOW && PassOf(r) == Some(Navigations)
    ensures r.kind == Ascii("desktop-shell") ==> r.kind == DESKTOP_SHELL && PassOf(r) == Some(Shell)
    ensures CLOSE_WINDOW != WINDOW_CONTROL
  {
    hide Ascii;
    KindWords();
    assert |EVALUATE_SCRIPT| == 15 && |DRAIN_BRIDGE_WINDOW| == 19 && |OPEN_WINDOW| == 11 && |CLOSE_WINDOW| == 12;
    assert |WINDOW_CONTROL| == 14 && |NAVIGATE_WINDOW| == 15 && |DESKTOP_SHELL| == 13;
    assert EVALUATE_SCRIPT[0] != NAVIGATE_WINDOW[0];
  }

  // ----- which window is meant -----

  /** The slot an operation on `name` reaches: the first that bears the label, or else the first of all. */
  ghost predicate Reached(slots: seq<Slot>, name: bytes, i: nat) {
    i < |slots| &&
    if name != [] && exists k :: 0 <= k < |slots| && slots[k].name == name
    then slots[i].name == name && forall k :: 0 <= k < i ==> slots[k].name != name
    else i == 0
  }

  lemma {:induction false} FirstBears(slots: seq<Slot>, name: bytes)
    ensures match FindExact(slots, name)
            case None => name == [] || forall k :: 0 <= k < |slots| ==> slots[k].name != name
            case Some(i) => name != [] && slots[i].name == name && forall k :: 0 <= k < i ==> slots[k].name != name
    decreases |slots|
  {
    if slots != [] && slots[0].name != name {
      FirstBears(slots[1..], name);
    }
  }

  lemma ReachedExact(slots: seq<Slot>, name: bytes, i: nat)
    ensures Target(slots, name) == Some(i) <==> Reached(slots, name, i)
  {
    hide FindExact;
    FirstBears(slots, name);
  }

  // ----- numbers in records -----

  /** The text of an integer: an optional minus, some zeros, and a decimal numeral. */
  ghost predicate IsInt(text: bytes, n: int) {
    exists zeros: nat, m: nat ::
      (text == Decimal.Zeros(zeros) + Decimal.Print(m) && n == m) ||
      (text == [MINUS] + (Decimal.Zeros(zeros) + Decimal.Print(m)) && n == -(m as int))
  }

  lemma ParseIntExact(text: bytes, n: int)
    ensures ParseInt(text) == Some(n) <==> IsInt(text, n)
  {
    hide Decimal.Value, Decimal.Print;
    if ParseInt(text) == Some(n) {
      var negative := text[0] == MINUS;
      var digits := if negative then text[1..] else text;
      var zeros := Decimal.ZerosAndNumeral(digits);
      assert negative ==> text == [MINUS] + digits;
      assert IsInt(text, n);
    }
    if IsInt(text, n) {
      var zeros: nat, m: nat :|
        (text == Decimal.Zeros(zeros) + Decimal.Print(m) && n == m) ||
        (text == [MINUS] + (Decimal.Zeros(zeros) + Decimal.Print(m)) && n == -(m as int));
      var digits := Decimal.Zeros(zeros) + Decimal.Print(m);
      Decimal.ValueOfZeros(zeros, Decimal.Print(m));
      Decimal.ValuePrint(m);
      assert Decimal.IsDigit(digits[0]);
      assert ([MINUS] + digits)[1..] == digits;
    }
  }

  /** A size that is given and positive, or else its fallback. */
  ghost predicate Means(text: bytes, fallback: int, n: int) {
    if exists k :: k > 0 && IsInt(text, k) then n > 0 && IsInt(text, n) else n == fallback
  }

  lemma MeansExact(text: bytes, fallback: int, n: int)
    requires Means(text, fallback, n)
    ensures Positive(ParseInt(text), fallback) == n
  {
    hide ParseInt, IsInt;
    forall k ensures ParseInt(text) == Some(k) <==> IsInt(text, k) {
      ParseIntExact(text, k);
    }
  }

  // ----- texts in records -----

  /** What C reads of a field. */
  ghost predicate ReadAs(field: bytes, text: bytes) {
    text <= field && NUL !in text && (|text| < |field| ==> field[|text|] == NUL)
  }

  lemma ReadAsExact(field: bytes, text: bytes)
    ensures ReadAs(field, text) <==> text == CString(field)
  {
    var c := CString(field);
    if ReadAs(field, text) {
      assert forall j :: 0 <= j < |c| ==> c[j] == field[j] != NUL;
      assert forall j :: 0 <= j < |text| ==> text[j] == field[j] != NUL;
      assert text == field[..|text|] && c == field[..|c|];
    }
  }

  // ----- window controls -----

  /** The packet makes exactly these calls and changes nothing else. */
  ghost predicate Calls(s: Loop, packet: bytes, calls: seq<Call>) {
    ApplyOperations(s, packet) == s.(calls := s.calls + calls)
  }

  /** A packet with this one window-control record, for the window in slot `i` of an orderly loop. */
  ghost predicate Controlling(s: Loop, packet: bytes, r: Record, i: nat) {
    && Inv(s) && s.primary != 0
    && Carries(packet, [r]) && r.kind == Ascii("window-control") && Reached(s.slots, r.window, i)
  }

  lemma ControlDone(s: Loop, packet: bytes, r: Record, i: nat)
    requires Controlling(s, packet, r, i) && r.action != CLOSE
    ensures var call := ControlCall(r, s.slots[i].window);
            Calls(s, packet, if call.Some? then [call.value] else [])
  {
    hide ApplyOperations, Carries, ControlCall, PassOf, Visited, QuitSafe, DrainsConserved, MenusShown, Target, Ascii,
         Reached;
    CarriesVisited(packet, [r]);
    Kinds(r);
    SingleRecord(s, packet, Controls, r);
    ReachedExact(s.slots, r.window, i);
    LiveWindows(s);
    assert s.calls + [] == s.calls;
  }

  lemma ControlWordsDiffer()
    ensures var words := [SET_TITLE, SET_SIZE, SET_POSITION, SET_FULLSCREEN, SHOW, FOCUS, HIDE, MINIMIZE, MAXIMIZE,
                          UNMAXIMIZE, CLOSE];
            forall j, k :: 0 <= j < k < |words| ==> words[j] != words[k]
  {
    assert |SET_TITLE| == 8 && |SET_SIZE| == 7 && |SET_POSITION| == 11 && |SET_FULLSCREEN| == 13;
    assert |SHOW| == 4 && |FOCUS| == 5 && |HIDE| == 4 && |MINIMIZE| == 8 && |MAXIMIZE| == 8 && |UNMAXIMIZE| == 10;
    assert |CLOSE| == 5 && SHOW[0] != HIDE[0] && FOCUS[0] != CLOSE[0] && MINIMIZE[1] != MAXIMIZE[1];
    assert SET_TITLE[0] != MINIMIZE[0] && SET_TITLE[0] != MAXIMIZE[0];
  }

  /** Actions without an argument. */
  lemma ControlEffect(s: Loop, packet: bytes, r: Record, i: nat)
    requires Controlling(s, packet, r, i)
    ensures var w := s.slots[i].window;
            && (r.action == Ascii("show") ==> Calls(s, packet, [ShowAll(w)]))
            && (r.action == Ascii("hide") ==> Calls(s, packet, [Hide(w)]))
            && (r.action == Ascii("focus") ==> Calls(s, packet, [Present(w)]))
            && (r.action == Ascii("minimize") ==> Calls(s, packet, [Iconify(w)]))
            && (r.action == Ascii("maximize") ==> Calls(s, packet, [Maximize(w)]))
            && (r.action == Ascii("unmaximize") ==> Calls(s, packet, [Unmaximize(w)]))
  {
    hide Ascii, Controlling, Calls, ParseInt;
    ControlWords();
    ControlWordsDiffer();
    assert Controlling(s, packet, r, i) ==> i < |s.slots| by { ControlledSlot(s, packet, r, i); }
    if r.action != CLOSE {
      ControlDone(s, packet, r, i);
    }
  }

  lemma ControlledSlot(s: Loop, packet: bytes, r: Record, i: nat)
    requires Controlling(s, packet, r, i)
    ensures i < |s.slots|
  {}

  /** The title is what C reads of the field. */
  lemma TitleEffect(s: Loop, packet: bytes, r: Record, i: nat, title: bytes)
    requires Controlling(s, packet, r, i) && r.action == Ascii("setTitle") && ReadAs(r.title, title)
    ensures Calls(s, packet, [SetTitle(s.slots[i].window, title)])
  {
    hide Ascii, Controlling, Calls, ParseInt, CString;
    ControlWords();
    ControlWordsDiffer();
    ControlledSlot(s, packet, r, i);
    ControlDone(s, packet, r, i);
    ReadAsExact(r.title, title);
  }

  /** A window is resized exactly to two positive numbers. */
  lemma SizeEffect(s: Loop, packet: bytes, r: Record, i: nat)
    requires Controlling(s, packet, r, i) && r.action == Ascii("setSize")
    ensures forall w, h :: w > 0 && h > 0 && IsInt(r.width, w) && IsInt(r.height, h) ==>
              Calls(s, packet, [Resize(s.slots[i].window, w, h)])
    ensures (forall w, h :: IsInt(r.width, w) && IsInt(r.height, h) ==> w <= 0 || h <= 0) ==> Calls(s, packet, [])
  {
    hide Ascii, Controlling, Calls, ParseInt, IsInt;
    ControlWords();
    ControlWordsDiffer();
    ControlledSlot(s, packet, r, i);
    ControlDone(s, packet, r, i);
    forall text, n ensures ParseInt(text) == Some(n) <==> IsInt(text, n) {
      ParseIntExact(text, n);
    }
  }

  /** A window is moved exactly to two numbers. */
  lemma PositionEffect(s: Loop, packet: bytes, r: Record, i: nat)
    requires Controlling(s, packet, r, i) && r.action == Ascii("setPosition")
    ensures forall x, y :: IsInt(r.x, x) && IsInt(r.y, y) ==> Calls(s, packet, [Move(s.slots[i].window, x, y)])
    ensures (forall x, y :: !(IsInt(r.x, x) && IsInt(r.y, y))) ==> Calls(s, packet, [])
  {
    hide Ascii, Controlling, Calls, ParseInt, IsInt;
    ControlWords();
    ControlWordsDiffer();
    ControlledSlot(s, packet, r, i);
    ControlDone(s, packet, r, i);
    forall text, n ensures ParseInt(text) == Some(n) <==> IsInt(text, n) {
      ParseIntExact(text, n);
    }
  }

  /** The names of the window controls. */
  predicate NamesControl(action: bytes) {
    || action == Ascii("setTitle") || action == Ascii("setSize") || action == Ascii("setPosition")
    || action == Ascii("setFullscreen") || action == Ascii("show") || action == Ascii("hide")
    || action == Ascii("focus") || action == Ascii("minimize") || action == Ascii("maximize")
    || action == Ascii("unmaximize") || action == Ascii("close")
  }

  /** `true`, `false`, or nothing; and nothing for an action of no name. */
  lemma FullscreenEffect(s: Loop, packet: bytes, r: Record, i: nat)
    requires Controlling(s, packet, r, i)
    ensures var w := s.slots[i].window;
            r.action == Ascii("setFullscreen") ==>
              && (r.fullscreen == Ascii("true") ==> Calls(s, packet, [Fullscreen(w, true)]))
              && (r.fullscreen == Ascii("false") ==> Calls(s, packet, [Fullscreen(w, false)]))
              && (r.fullscreen != Ascii("true") && r.fullscreen != Ascii("false") ==> Calls(s, packet, []))
    ensures !NamesControl(r.action) ==> Calls(s, packet, [])
  {
    hide Ascii, Controlling, Calls, ParseInt;
    ControlWords();
    ControlWordsDiffer();
    JsonWords();
    assert |TRUE| == 4 && |FALSE| == 5;
    ControlledSlot(s, packet, r, i);
    if r.action != CLOSE {
      ControlDone(s, packet, r, i);
    }
  }

  /** A record that closes a window: by its kind, or as a window control. */
  predicate Closes(r: Record) {
    r.kind == Ascii("close-window") || (r.kind == Ascii("window-control") && r.action == Ascii("close"))
  }

  /** The window is destroyed, its slot goes, and the first one left becomes primary if it was; with the last
      window, service termination and quit follow. */
  lemma CloseEffect(s: Loop, packet: bytes, r: Record, i: nat)
    requires Inv(s) && s.primary != 0 && Carries(packet, [r]) && Closes(r) && Reached(s.slots, r.window, i)
    ensures var t := ApplyOperations(s, packet);
            && t.slots == s.slots[..i] + s.slots[i + 1..]
            && t.calls == s.calls + [Destroy(s.slots[i].window)] +
                          (if |s.slots| == 1 then [TerminateServices, MainQuit(0)] else [])
            && (s.slots[i].window != s.primary ==> t.primary == s.primary && t.primaryView == s.primaryView)
            && (s.slots[i].window == s.primary && t.slots != [] ==>
                  t.primary == t.slots[0].window && t.primaryView == t.slots[0].webview)
            && (t.slots == [] ==> t.primary == 0 && t.primaryView == 0)
            && t == s.(slots := t.slots, calls := t.calls, primary := t.primary, primaryView := t.primaryView)
  {
    hide ApplyOperations, Carries, ControlCall, PassOf, Visited, QuitSafe, DrainsConserved, MenusShown, Target, Ascii,
         Reached, DestroyWidget;
    CarriesVisited(packet, [r]);
    Kinds(r);
    ControlWords();
    SingleRecord(s, packet, Controls, r);
    ReachedExact(s.slots, r.window, i);
    LiveWindows(s);
    DestroyExact(s, i);
  }

  /** Of several closing records in one packet only the first is carried out. */
  lemma OneClosePerPacket(s: Loop, packet: bytes, other: bytes, r: Record, more: seq<Record>)
    requires Inv(s) && s.primary != 0 && s.slots != []
    requires Carries(packet, [r] + more) && Carries(other, [r]) && Closes(r)
    requires forall k :: 0 <= k < |more| ==> Closes(more[k])
    ensures ApplyOperations(s, packet) == ApplyOperations(s, other)
  {
    hide ApplyOperations, Carries, PassOf, Visited, QuitSafe, DrainsConserved, MenusShown, Target, Closes,
         DestroyWidget;
    var records := [r] + more;
    CarriesVisited(packet, records);
    CarriesVisited(other, [r]);
    forall x: Record | Closes(x) ensures PassOf(x) == Some(Controls) && IsClosing(x) {
      ClosingKind(x);
    }
    OnlyPass(s, packet, Controls);
    SingleRecord(s, other, Controls, r);
    LiveWindows(s);
    var p := Step(Controls, Progress(s, false), r);
    assert p.closed;
    assert records[1..] == more;
    ClosedIgnores(p, more);
  }

  predicate IsClosing(r: Record) {
    r.kind == CLOSE_WINDOW || (r.kind == WINDOW_CONTROL && r.action == CLOSE)
  }

  lemma ClosingKind(r: Record)
    requires Closes(r)
    ensures PassOf(r) == Some(Controls) && IsClosing(r)
  {
    hide PassOf, Ascii;
    Kinds(r);
    ControlWords();
  }

  lemma {:induction false} ClosedIgnores(p: Progress, records: seq<Record>)
    requires p.closed && forall k :: 0 <= k < |records| ==> IsClosing(records[k])
    ensures Steps(Controls, p, records) == p
    decreases |records|
  {
    hide Target, DestroyWidget, ControlCall;
    if records != [] {
      assert Step(Controls, p, records[0]) == p;
      ClosedIgnores(p, records[1..]);
    }
  }

  lemma DestroyExact(s: Loop, i: nat)
    requires Windows(s) && s.primary != 0 && i < |s.slots|
    ensures var t := DestroyWidget(s, s.slots[i].window);
            && t.slots == s.slots[..i] + s.slots[i + 1..]
            && t.calls == s.calls + [Destroy(s.slots[i].window)] +
                          (if |s.slots| == 1 then [TerminateServices, MainQuit(0)] else [])
            && (s.slots[i].window != s.primary ==> t.primary == s.primary && t.primaryView == s.primaryView)
            && (s.slots[i].window == s.primary && t.slots != [] ==>
                  t.primary == t.slots[0].window && t.primaryView == t.slots[0].webview)
            && (t.slots == [] ==> t.primary == 0 && t.primaryView == 0)
            && t == s.(slots := t.slots, calls := t.calls, primary := t.primary, primaryView := t.primaryView)
  {
    hide WindowIndex;
    LiveWindows(s);
    var window := s.slots[i].window;
    assert WindowIndex(s.slots, window) == Some(i);
    if |s.slots| == 1 {
      var k :| 0 <= k < |s.slots| && s.slots[k].window == s.primary && s.slots[k].webview == s.primaryView;
    }
  }

  // ----- scripts, navigations and drain requests -----

  /** A script runs in the view of its window; an empty one does not. */
  lemma ScriptEffect(s: Loop, packet: bytes, r: Record, i: nat, script: bytes)
    requires Inv(s) && s.primary != 0 && Carries(packet, [r]) && r.kind == Ascii("evaluate-script")
    requires Reached(s.slots, r.window, i) && ReadAs(r.url, script)
    ensures Calls(s, packet, if r.url == [] then [] else [RunScript(s.slots[i].webview, script)])
  {
    hide ApplyOperations, Carries, PassOf, Visited, QuitSafe, DrainsConserved, MenusShown, Target, Ascii, Reached,
         CString;
    CarriesVisited(packet, [r]);
    Kinds(r);
    PrimaryExists(s);
    SingleRecord(s, packet, Scripts, r);
    ReachedExact(s.slots, r.window, i);
    ReadAsExact(r.url, script);
    assert LiveSlot(s.slots[i], s.next);
    assert s.calls + [] == s.calls;
  }

  /** A page is loaded in the view of its window, also an empty one. */
  lemma NavigateEffect(s: Loop, packet: bytes, r: Record, i: nat, url: bytes)
    requires Inv(s) && s.primary != 0 && Carries(packet, [r]) && r.kind == Ascii("navigate-window")
    requires Reached(s.slots, r.window, i) && ReadAs(r.url, url)
    ensures Calls(s, packet, [LoadUri(s.slots[i].webview, url)])
  {
    hide ApplyOperations, Carries, PassOf, Visited, QuitSafe, DrainsConserved, MenusShown, Target, Ascii, Reached,
         CString;
    CarriesVisited(packet, [r]);
    Kinds(r);
    PrimaryExists(s);
    SingleRecord(s, packet, Navigations, r);
    ReachedExact(s.slots, r.window, i);
    ReadAsExact(r.url, url);
    assert LiveSlot(s.slots[i], s.next);
  }

  /** What a buffer of the given size keeps of a field: as much as fits before a NUL. */
  ghost predicate KeptIn(size: nat, field: bytes, text: bytes) {
    && |text| < size && text <= field && NUL !in text
    && (|text| < |field| ==> |text| == size - 1 || field[|text|] == NUL)
  }

  lemma KeptInExact(size: nat, field: bytes, text: bytes)
    requires size > 0
    ensures KeptIn(size, field, text) <==> text == Stored(field, size)
  {
    hide CString;
    var cut := if |field| < size then field else field[..size - 1];
    ReadAsExact(cut, text);
    assert text <= cut && |text| < |cut| ==> cut[|text|] == field[|text|];
    assert text <= field && |text| <= |cut| ==> text <= cut;
  }

  /** A drain request goes behind the others with its label and its callback, unless 32 are waiting or the
      callback is empty. */
  lemma DrainEffect(s: Loop, packet: bytes, r: Record, name: bytes, callback: bytes)
    requires Inv(s) && Carries(packet, [r]) && r.kind == Ascii("drain-bridge-window")
    requires KeptIn(128, r.window, name) && KeptIn(256, r.action, callback)
    ensures var t := ApplyOperations(s, packet);
            && t.drains == s.drains + (if |s.drains| < 32 && r.action != [] then [Drain(name, callback)] else [])
            && t == s.(drains := t.drains, accepted := t.accepted)
  {
    hide ApplyOperations, Carries, PassOf, Visited, Inv, Ascii, Stored, KeptIn;
    CarriesVisited(packet, [r]);
    Kinds(r);
    SingleRecord(s, packet, Drains, r);
    KeptInExact(128, r.window, name);
    KeptInExact(256, r.action, callback);
    assert s.drains + [] == s.drains;
  }

  // ----- opening a window -----

  /** A new label opens a window of the given title, size and page; it is registered under what the label
      buffer keeps, unless 32 are, and starts with the application menu, if there is one. */
  lemma OpenEffect(s: Loop, packet: bytes, r: Record, name: bytes, title: bytes, url: bytes, width: int, height: int)
    requires Inv(s) && Carries(packet, [r]) && r.kind == Ascii("open-window") && r.window != [] && r.url != []
    requires forall k :: 0 <= k < |s.slots| ==> s.slots[k].name != r.window
    requires KeptIn(128, r.window, name) && ReadAs(r.title, title) && ReadAs(r.url, url)
    requires Means(r.width, 960, width) && Means(r.height, 640, height)
    ensures var t := ApplyOperations(s, packet);
            var bar := if s.appMenu.Some? then Bar(s.appMenu.value) else None;
            var resizable := r.resizable != Ascii("false");
            && t.slots == s.slots + (if |s.slots| < 32
                                     then [Slot(name, s.next, s.next + 2, bar, false, s.next + 1)] else [])
            && t.calls == s.calls + [OpenWindow(s.next, s.next + 1, title, width, height, resizable, url)]
            && t == s.(slots := t.slots, calls := t.calls, next := s.next + 3, oddLabel := t.oddLabel)
  {
    hide ApplyOperations, Carries, PassOf, Visited, Inv, Ascii, Stored, KeptIn, ReadAs, CString, Bar, ParseInt, Open,
         NewSlot, FindExact, Means;
    CarriesVisited(packet, [r]);
    Kinds(r);
    SingleRecord(s, packet, Opens, r);
    FirstBears(s.slots, r.window);
    KeptInExact(128, r.window, name);
    OpenShape(s, r);
    OpenLast(s, r);
    ReadAsExact(r.title, title);
    ReadAsExact(r.url, url);
    MeansExact(r.width, 960, width);
    MeansExact(r.height, 640, height);
    ResizableExact(r.resizable);
    NewSlotExact(s, r.window, name);
    var t := Open(s, r);
    assert t.calls == t.calls[..|s.calls|] + [t.calls[|s.calls|]];
    assert s.slots + [] == s.slots;
  }

  lemma ResizableExact(text: bytes)
    ensures Or(ParseBool(text), true) == (text != Ascii("false"))
  {
    hide Ascii;
    JsonWords();
    assert |TRUE| == 4 && |FALSE| == 5;
  }

  lemma NewSlotExact(s: Loop, name: bytes, kept: bytes)
    requires Inv(s) && kept == Stored(name, 128)
    ensures var bar := if s.appMenu.Some? then Bar(s.appMenu.value) else None;
            NewSlot(s, name) == Slot(kept, s.next, s.next + 2, bar, false, s.next + 1)
  {
    hide Bar, Stored, QuitSafe, DrainsConserved, MenusShown;
  }

  lemma OpenLast(s: Loop, r: Record)
    requires Opening(s, r)
    ensures var t := Open(s, r);
            |t.calls| == |s.calls| + 1 && t.calls[|s.calls|] == OpenCall(r, s.next, s.next + 1)
  {
    hide FindExact, Stored, Bar, OpenCall, Fits;
  }

  /** A record without a label or a page, or for a label in the table, opens nothing. */
  lemma OpenRefused(s: Loop, packet: bytes, r: Record)
    requires Carries(packet, [r]) && r.kind == Ascii("open-window")
    requires r.window == [] || r.url == [] || exists k :: 0 <= k < |s.slots| && s.slots[k].name == r.window
    ensures ApplyOperations(s, packet) == s
  {
    hide ApplyOperations, Carries, PassOf, Visited, Ascii, FindExact;
    CarriesVisited(packet, [r]);
    Kinds(r);
    SingleRecord(s, packet, Opens, r);
    FirstBears(s.slots, r.window);
    NotOpening(s, r);
  }

  /** Without a primary window scripts, controls and navigations are not carried out. */
  lemma NoPrimaryEffect(s: Loop, packet: bytes, r: Record)
    requires Inv(s) && s.primary == 0 && Carries(packet, [r])
    requires || r.kind == Ascii("evaluate-script") || r.kind == Ascii("close-window")
             || r.kind == Ascii("window-control") || r.kind == Ascii("navigate-window")
    ensures ApplyOperations(s, packet) == s
  {
    hide ApplyOperations, Carries, PassOf, Visited, Ascii, Inv;
    CarriesVisited(packet, [r]);
    Kinds(r);
    PrimaryExists(s);
    SingleRecord(s, packet, PassOf(r).value, r);
  }

  // ----- the start -----

  /** The main window is registered under what the label buffer keeps of its label, and is primary. */
  lemma MainWindowExact(name: bytes, text: bytes, kept: bytes, respawns: bool)
    requires ReadAs(name, text) && KeptIn(128, text, kept)
    ensures var s := MainWindow(name, respawns);
            && s.slots == [Slot(kept, 1, 3, None, false, 2)] && s.primary == 1 && s.primaryView == 2
            && s.calls == [] && s.drains == [] && s.inFlight == [] && s.appMenu == None && s.respawns == respawns
  {
    hide Stored, CString, ReadAs, KeptIn, Fits;
    ReadAsExact(name, text);
    KeptInExact(128, text, kept);
  }

  /** The start-up packet opens its windows after the main window, as any packet with these records would. */
  lemma StartEffect(name: bytes, respawns: bool, records: seq<Record>, packet: bytes)
    requires |EncodeInitialOpen(records)| <= INT32_MAX && Carries(packet, records)
    requires forall k :: 0 <= k < |records| ==> records[k].kind == Ascii("open-window")
    ensures Start(name, EncodeInitialOpen(records), respawns) == ApplyOperations(MainWindow(name, respawns), packet)
  {
    hide ApplyOperations, Carries, Visited, PassOf, Ascii, EncodeInitialOpen, MainWindow, Steps;
    CarriesVisited(packet, records);
    InitialOpenRoundTrip(LINUX_STATUSES, records);
    forall k | 0 <= k < |records| ensures PassOf(records[k]) == Some(Opens) {
      Kinds(records[k]);
    }
    OnlyPass(MainWindow(name, respawns), packet, Opens);
  }
}
