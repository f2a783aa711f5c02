/** The native event loop of the Linux backend as functions on its state: window slots, menus, the
    drain queue, and the six passes that carry out a packet's operations. */
module LoopSpec {
  import opened Results
  import opened Bytes
  import opened Words
  import opened PacketCodec
  import opened MenuBuilder
  import opened HandoffScript
  import Decimal

  /** A toolkit object; 0 is NULL. The toolkit hands out fresh handles in increasing order. */
  type Handle = nat

  type Menu = seq<Node>

  /** An entry of the window table. Window, box and web view are set together. */
  datatype Slot = Slot(
    name: bytes, window: Handle, box: Handle, menuBar: Option<Menu>, hasWindowMenu: bool, webview: Handle)

  const EMPTY_SLOT := Slot([], 0, 0, None, false, 0)

  datatype Drain = Drain(window: bytes, callback: bytes)

  /** The toolkit calls a run makes. `MainQuit` notes how many windows are registered at that moment;
      `Closed` is no call but a note that the toolkit itself destroyed a window, as its user asked. */
  datatype Call =
    | OpenWindow(window: Handle, view: Handle, title: bytes, width: int, height: int, resizable: bool, url: bytes)
    | SetTitle(window: Handle, title: bytes)
    | Resize(window: Handle, width: int, height: int)
    | Move(window: Handle, x: int, y: int)
    | Fullscreen(window: Handle, on: bool)
    | ShowAll(window: Handle)
    | Present(window: Handle)
    | Hide(window: Handle)
    | Iconify(window: Handle)
    | Maximize(window: Handle)
    | Unmaximize(window: Handle)
    | Destroy(window: Handle)
    | LoadUri(view: Handle, url: bytes)
    | RunScript(view: Handle, script: bytes)
    | TerminateServices
    | MainQuit(registered: nat)
    | Closed(window: Handle)

  /** What the application asked to be shown: its own menu, and the menus of single windows. A payload
      without a menu leaves a window's wish as it was, but makes the application's wish none: the payload is
      stored all the same, and windows opened later start from it. */
  datatype Wanted = Wanted(app: Option<Menu>, own: map<Handle, Menu>)

  /** The bridge context. `respawns` says whether the process can start a copy of itself. `inFlight` is
      the batch of drain requests being sent, and the number of `dispatched` ones tells the dispatcher
      which request it answers. The other fields from `calls` on are history: they record what happened
      and steer nothing. `drifted`: some menu step did not meet the condition of its kind, given with the
      menus below. `oddLabel`: some opened window's label does not fit the label buffer. */
  datatype Loop = Loop(
    slots: seq<Slot>, primary: Handle, primaryView: Handle, drains: seq<Drain>, appMenu: Option<bytes>,
    next: Handle, respawns: bool,
    calls: seq<Call>, accepted: seq<Drain>, dispatched: seq<Drain>, inFlight: seq<Drain>,
    wanted: Wanted, drifted: bool, oddLabel: bool)

  const MAX_WINDOWS: nat := 32
  const MAX_DRAINS: nat := 32
  const MAX_ROUNDS: nat := 32

  function Log(s: Loop, call: Call): Loop {
    s.(calls := s.calls + [call])
  }

  // ----- window slots -----

  /** What a fixed label buffer of the given size keeps of a text. */
  function Stored(text: bytes, size: nat): (r: bytes)
    requires size > 0
    ensures |r| < size && NUL !in r
    ensures |text| < size && NUL !in text ==> r == text
  {
    CString(if |text| < size then text else text[..size - 1])
  }

  /** The label buffer keeps the label unchanged. */
  predicate Fits(name: bytes) {
    |name| < LABEL_SIZE && NUL !in name
  }

  const LABEL_SIZE: nat := 128
  const CALLBACK_SIZE: nat := 256

  /** The first slot whose stored label is exactly `name`; an empty label matches nothing. */
  function FindExact(slots: seq<Slot>, name: bytes): (r: Option<nat>)
    ensures r.Some? ==> name != [] && r.value < |slots| && slots[r.value].name == name
    ensures r.None? && name != [] ==> forall i :: 0 <= i < |slots| ==> slots[i].name != name
  {
    if name == [] || slots == [] then None
    else if slots[0].name == name then Some(0)
    else
      match FindExact(slots[1..], name)
      case None => None
      case Some(i) => Some(i + 1)
  }

  /** The slot an operation on `name` acts on: the exact match, or else the first slot. */
  function Target(slots: seq<Slot>, name: bytes): (r: Option<nat>)
    ensures r.Some? <==> slots != []
    ensures r.Some? ==> r.value < |slots|
  {
    var exact := FindExact(slots, name);
    if exact.Some? then exact else if slots != [] then Some(0) else None
  }

  function WindowIndex(slots: seq<Slot>, window: Handle): (r: Option<nat>)
    ensures r.Some? ==> r.value < |slots| && slots[r.value].window == window
    ensures r.Some? ==> forall i :: 0 <= i < r.value ==> slots[i].window != window
    ensures r.None? ==> forall i :: 0 <= i < |slots| ==> slots[i].window != window
  {
    if slots == [] then None
    else if slots[0].window == window then Some(0)
    else
      match WindowIndex(slots[1..], window)
      case None => None
      case Some(i) => Some(i + 1)
  }

  /** A full table leaves a new window unregistered. */
  function Register(s: Loop, name: bytes, window: Handle, box: Handle, webview: Handle): Loop {
    match FindExact(s.slots, name)
    case Some(i) => s.(slots := s.slots[i := s.slots[i].(window := window, box := box, webview := webview)])
    case None =>
      if |s.slots| >= MAX_WINDOWS then s
      else s.(slots := s.slots + [Slot(Stored(name, LABEL_SIZE), window, box, None, false, webview)])
  }

  function Without(slots: seq<Slot>, i: nat): (r: seq<Slot>)
    requires i < |slots|
    ensures |r| == |slots| - 1
    ensures forall j :: 0 <= j < |r| ==> r[j] == slots[if j < i then j else j + 1]
  {
    slots[..i] + slots[i + 1..]
  }

  /** The slot closes up; if it was the primary window, the new first slot becomes primary. */
  function RemoveSlot(s: Loop, window: Handle): Loop {
    if window == 0 then s
    else
      match WindowIndex(s.slots, window)
      case None => s
      case Some(i) =>
        var slots := Without(s.slots, i);
        var kept := s.(slots := slots);
        if s.primary != window then kept
        else if slots == [] then kept.(primary := 0, primaryView := 0)
        else kept.(primary := slots[0].window, primaryView := slots[0].webview)
  }

  /** The callback the toolkit runs, synchronously, whenever a window is destroyed. */
  function WindowDestroyed(s: Loop, window: Handle): Loop {
    var kept := RemoveSlot(s, window);
    if kept.slots == [] then Log(Log(kept, TerminateServices), MainQuit(|kept.slots|)) else kept
  }

  function DestroyWidget(s: Loop, window: Handle): Loop {
    WindowDestroyed(Log(s, Destroy(window)), window)
  }

  /** Downward over the table, which shrinks under the loop: `i` slots are still to be visited. */
  function CloseDown(s: Loop, i: nat): Loop
    decreases i
  {
    if i == 0 then s
    else
      var window := if i - 1 < |s.slots| then s.slots[i - 1].window else 0;
      CloseDown(if window != 0 then DestroyWidget(s, window) else s, i - 1)
  }

  function CloseAll(s: Loop): Loop {
    CloseDown(s, |s.slots|)
  }

  // ----- menus -----

  /** The menu bar of a payload, if the builder returns one. */
  function Bar(payload: bytes): Option<Menu> {
    match MenuBar(payload)
    case Some(Items(items)) => Some(items)
    case _ => None
  }

  /** A payload without a menu leaves the present bar in place. */
  function SetBar(slot: Slot, payload: bytes): Slot {
    match Bar(payload)
    case Some(menu) => slot.(menuBar := Some(menu))
    case None => slot
  }

  function ShowAppMenu(slot: Slot, payload: bytes): Slot {
    if slot.window != 0 && !slot.hasWindowMenu then SetBar(slot, payload) else slot
  }

  function HideAppMenu(slot: Slot): Slot {
    if slot.window != 0 && !slot.hasWindowMenu then slot.(menuBar := None) else slot
  }

  // A payload without a menu is stored, or sets a flag, but changes no bar. Then the windows show what
  // was asked for all the same exactly under these conditions.

  predicate AppMenuFits(slots: seq<Slot>, payload: bytes) {
    Bar(payload).Some? || forall i :: 0 <= i < |slots| && !slots[i].hasWindowMenu ==> slots[i].menuBar.None?
  }

  predicate WindowMenuFits(slots: seq<Slot>, name: bytes, payload: bytes) {
    Bar(payload).Some? || Target(slots, name).None? || slots[Target(slots, name).value].hasWindowMenu
  }

  predicate ClearFits(slots: seq<Slot>, name: bytes, appMenu: Option<bytes>) {
    || Target(slots, name).None? || appMenu.None? || Bar(appMenu.value).Some?
    || slots[Target(slots, name).value].menuBar.None?
  }

  function SetAppMenu(s: Loop, payload: bytes): Loop {
    if payload == [] then s
    else
      s.(appMenu := Some(payload),
         slots := seq(|s.slots|, i requires 0 <= i < |s.slots| => ShowAppMenu(s.slots[i], payload)),
         wanted := s.wanted.(app := Bar(payload)),
         drifted := s.drifted || !AppMenuFits(s.slots, payload))
  }

  function ClearAppMenu(s: Loop): Loop {
    s.(appMenu := None,
       slots := seq(|s.slots|, i requires 0 <= i < |s.slots| => HideAppMenu(s.slots[i])),
       wanted := s.wanted.(app := None))
  }

  function SetWindowMenu(s: Loop, name: bytes, payload: bytes): Loop {
    match Target(s.slots, name)
    case None => s
    case Some(i) =>
      var slot := s.slots[i];
      var own := if Bar(payload).Some? then s.wanted.own[slot.window := Bar(payload).value] else s.wanted.own;
      s.(slots := s.slots[i := SetBar(slot.(hasWindowMenu := true), payload)],
         wanted := s.wanted.(own := own),
         drifted := s.drifted || !WindowMenuFits(s.slots, name, payload))
  }

  function ClearWindowMenu(s: Loop, name: bytes): Loop {
    match Target(s.slots, name)
    case None => s
    case Some(i) =>
      var slot := s.slots[i].(hasWindowMenu := false);
      s.(slots := s.slots[i := if s.appMenu.Some? then SetBar(slot, s.appMenu.value) else slot.(menuBar := None)],
         wanted := s.wanted.(own := s.wanted.own - {slot.window}),
         drifted := s.drifted || !ClearFits(s.slots, name, s.appMenu))
  }

  // ----- record fields -----

  /** An optional minus and at least one digit, nothing else. */
  function ParseInt(text: bytes): Option<int> {
    var negative := text != [] && text[0] == MINUS;
    var digits := if negative then text[1..] else text;
    if digits == [] || !Decimal.AllDigits(digits) then None
    else Some(if negative then -(Decimal.Value(digits) as int) else Decimal.Value(digits))
  }

  function ParseBool(text: bytes): Option<bool> {
    if text == TRUE then Some(true) else if text == FALSE then Some(false) else None
  }

  function Or<T>(value: Option<T>, fallback: T): T {
    match value case None => fallback case Some(v) => v
  }

  function Positive(value: Option<int>, fallback: int): int {
    if value.Some? && value.value > 0 then value.value else fallback
  }

  /** An action by its plain name or behind its domain. */
  predicate IsAction(action: bytes, domain: bytes, name: bytes) {
    action == name || action == domain + name
  }

  // ----- one record in one pass -----

  datatype Pass = Scripts | Drains | Opens | Controls | Navigations | Shell

  /** `closed`: the control pass destroys at most one window. */
  datatype Progress = Progress(s: Loop, closed: bool)

  function RunRecordScript(s: Loop, r: Record): Loop {
    if r.kind != EVALUATE_SCRIPT || r.url == [] then s
    else
      match Target(s.slots, r.window)
      case None => s
      case Some(i) => if s.slots[i].webview == 0 then s else Log(s, RunScript(s.slots[i].webview, CString(r.url)))
  }

  function RegisterDrain(s: Loop, window: bytes, callback: bytes): Loop {
    if callback == [] || |s.drains| >= MAX_DRAINS then s
    else
      var drain := Drain(Stored(window, LABEL_SIZE), Stored(callback, CALLBACK_SIZE));
      s.(drains := s.drains + [drain], accepted := s.accepted + [drain])
  }

  function RequestDrain(s: Loop, r: Record): Loop {
    if r.kind != DRAIN_BRIDGE_WINDOW then s else RegisterDrain(s, r.window, r.action)
  }

  /** A slot added behind the first `count` starts with the application menu, if there is one. */
  function ShowNew(s: Loop, count: nat): Loop {
    if |s.slots| > count && s.appMenu.Some?
    then s.(slots := s.slots[count := ShowAppMenu(s.slots[count], s.appMenu.value)])
    else s
  }

  function Open(s: Loop, r: Record): Loop {
    if r.kind != OPEN_WINDOW || r.window == [] || r.url == [] || FindExact(s.slots, r.window).Some? then s
    else
      var window, webview, box := s.next, s.next + 1, s.next + 2;
      var made := s.(next := s.next + 3, oddLabel := s.oddLabel || !Fits(r.window));
      Log(ShowNew(Register(made, r.window, window, box, webview), |s.slots|), OpenCall(r, window, webview))
  }

  /** Sizes that are missing, malformed or not positive fall back to 960 by 640. */
  function OpenCall(r: Record, window: Handle, webview: Handle): Call {
    OpenWindow(window, webview, CString(r.title), Positive(ParseInt(r.width), 960),
               Positive(ParseInt(r.height), 640), Or(ParseBool(r.resizable), true), CString(r.url))
  }

  /** The call a window-control record asks for, if its action and arguments are valid. */
  function ControlCall(r: Record, window: Handle): Option<Call> {
    if r.action == SET_TITLE then Some(SetTitle(window, CString(r.title)))
    else if r.action == SET_SIZE then
      var width, height := ParseInt(r.width), ParseInt(r.height);
      if width.Some? && height.Some? && width.value > 0 && height.value > 0
      then Some(Resize(window, width.value, height.value)) else None
    else if r.action == SET_POSITION then
      var x, y := ParseInt(r.x), ParseInt(r.y);
      if x.Some? && y.Some? then Some(Move(window, x.value, y.value)) else None
    else if r.action == SET_FULLSCREEN then
      var on := ParseBool(r.fullscreen);
      if on.Some? then Some(Fullscreen(window, on.value)) else None
    else if r.action == SHOW then Some(ShowAll(window))
    else if r.action == FOCUS then Some(Present(window))
    else if r.action == HIDE then Some(Hide(window))
    else if r.action == MINIMIZE then Some(Iconify(window))
    else if r.action == MAXIMIZE then Some(Maximize(window))
    else if r.action == UNMAXIMIZE then Some(Unmaximize(window))
    else None
  }

  function Control(p: Progress, r: Record): Progress {
    match Target(p.s.slots, r.window)
    case None => p
    case Some(i) =>
      var window := p.s.slots[i].window;
      if window == 0 then p
      else if r.kind == CLOSE_WINDOW || (r.kind == WINDOW_CONTROL && r.action == CLOSE) then
        if p.closed then p else Progress(DestroyWidget(p.s, window), true)
      else if r.kind != WINDOW_CONTROL then p
      else
        match ControlCall(r, window)
        case None => p
        case Some(call) => p.(s := Log(p.s, call))
  }

  function Navigate(s: Loop, r: Record): Loop {
    if r.kind != NAVIGATE_WINDOW then s
    else
      match Target(s.slots, r.window)
      case None => s
      case Some(i) => if s.slots[i].webview == 0 then s else Log(s, LoadUri(s.slots[i].webview, CString(r.url)))
  }

  /** Tray and theme actions leave this state alone. */
  function ShellAction(s: Loop, r: Record): Loop {
    if r.kind != DESKTOP_SHELL then s
    else if IsAction(r.action, MENU_DOMAIN, SET_APP_MENU) then SetAppMenu(s, r.url)
    else if IsAction(r.action, MENU_DOMAIN, CLEAR_APP_MENU) then ClearAppMenu(s)
    else if IsAction(r.action, MENU_DOMAIN, SET_WINDOW_MENU) then SetWindowMenu(s, r.window, r.url)
    else if IsAction(r.action, MENU_DOMAIN, CLEAR_WINDOW_MENU) then ClearWindowMenu(s, r.window)
    else if IsAction(r.action, APP_DOMAIN, RESTART) then if s.respawns then CloseAll(s) else s
    else if IsAction(r.action, APP_DOMAIN, EXIT) then CloseAll(s)
    else
      match Target(s.slots, r.window)
      case None => s
      case Some(i) =>
        var window := s.slots[i].window;
        if window == 0 then s
        else if IsAction(r.action, APP_DOMAIN, SHOW) then Log(Log(s, ShowAll(window)), Present(window))
        else if IsAction(r.action, APP_DOMAIN, HIDE) then Log(s, Hide(window))
        else s
  }

  function Step(pass: Pass, p: Progress, r: Record): Progress {
    match pass
    case Scripts => p.(s := RunRecordScript(p.s, r))
    case Drains => p.(s := RequestDrain(p.s, r))
    case Opens => p.(s := Open(p.s, r))
    case Controls => Control(p, r)
    case Navigations => p.(s := Navigate(p.s, r))
    case Shell => p.(s := ShellAction(p.s, r))
  }

  // ----- passes -----

  function Steps(pass: Pass, p: Progress, records: seq<Record>): Progress
    decreases |records|
  {
    if records == [] then p else Steps(pass, Step(pass, p, records[0]), records[1..])
  }

  /** Scripts and navigations need a primary web view, controls a primary window. */
  predicate Enabled(pass: Pass, s: Loop) {
    match pass
    case Scripts => s.primaryView != 0
    case Controls => s.primary != 0
    case Navigations => s.primaryView != 0
    case _ => true
  }

  function RunPass(pass: Pass, s: Loop, records: seq<Record>): Loop {
    if Enabled(pass, s) then Steps(pass, Progress(s, false), records).s else s
  }

  /** Every pass decodes the packet again from its first byte. */
  function ApplyPass(pass: Pass, s: Loop, packet: bytes): Loop {
    RunPass(pass, s, Visited(packet, LINUX_STATUSES))
  }

  function ApplyOperations(s: Loop, packet: bytes): Loop {
    var s1 := ApplyPass(Scripts, s, packet);
    var s2 := ApplyPass(Drains, s1, packet);
    var s3 := ApplyPass(Opens, s2, packet);
    var s4 := ApplyPass(Controls, s3, packet);
    var s5 := ApplyPass(Navigations, s4, packet);
    ApplyPass(Shell, s5, packet)
  }

  // ----- drain queue and messages -----

  /** The MoonBit side: the answer to the n-th drain request. Any function will do. */
  type Dispatch = (nat, bytes) -> bytes

  function RunImmediate(s: Loop, packet: bytes, view: Handle): Loop {
    match ImmediateScript(packet)
    case None => s
    case Some(script) => if view == 0 then s else Log(s, RunScript(view, script))
  }

  function ViewOf(s: Loop, name: bytes): Handle {
    match Target(s.slots, name)
    case None => s.primaryView
    case Some(i) => s.slots[i].webview
  }

  /** Sends the first request of the batch in flight and carries out the answer. */
  function DispatchOne(s: Loop, dispatch: Dispatch): Loop
    requires s.inFlight != []
  {
    var request := s.inFlight[0];
    var packet := dispatch(|s.dispatched|, DRAIN_PREFIX + request.window);
    var sent := s.(inFlight := s.inFlight[1..], dispatched := s.dispatched + [request]);
    ApplyOperations(RunImmediate(sent, packet, ViewOf(sent, request.window)), packet)
  }

  function DispatchBatch(s: Loop, dispatch: Dispatch, n: nat): Loop
    decreases n
  {
    if n == 0 || s.inFlight == [] then s else DispatchBatch(DispatchOne(s, dispatch), dispatch, n - 1)
  }

  /** Takes the queue as a batch, empties it, and dispatches the batch; the answers may refill it. */
  function Round(s: Loop, dispatch: Dispatch): Loop {
    DispatchBatch(s.(inFlight := s.drains, drains := []), dispatch, |s.drains|)
  }

  function Rounds(s: Loop, dispatch: Dispatch, n: nat): Loop
    decreases n
  {
    if n == 0 || s.drains == [] then s else Rounds(Round(s, dispatch), dispatch, n - 1)
  }

  function ProcessDrains(s: Loop, dispatch: Dispatch): Loop {
    Rounds(s, dispatch, MAX_ROUNDS)
  }

  /** The window a handoff packet is for: its second line. */
  function PacketWindow(packet: bytes): bytes {
    match ReadLine(packet, 0)
    case NoLine => []
    case Line(_, second) =>
      match ReadLine(packet, second)
      case NoLine => []
      case Line(window, _) => window
  }

  /** A message from a web view, answered with `packet`. */
  function HandleMessage(s: Loop, packet: bytes, dispatch: Dispatch): Loop {
    if s.primaryView == 0 then s
    else
      var started := RunImmediate(s, packet, ViewOf(s, PacketWindow(packet)));
      ProcessDrains(ApplyOperations(started, packet), dispatch)
  }

  /** The toolkit destroys a window on its own; the callback runs as after a call. */
  function ClosedByUser(s: Loop, window: Handle): Loop {
    WindowDestroyed(if 0 < window < s.next then Log(s, Closed(window)) else s, window)
  }

  datatype Event = Message(packet: bytes) | Destroyed(window: Handle)

  function React(s: Loop, event: Event, dispatch: Dispatch): Loop {
    match event
    case Message(packet) => HandleMessage(s, packet, dispatch)
    case Destroyed(window) => ClosedByUser(s, window)
  }

  function Run(s: Loop, events: seq<Event>, dispatch: Dispatch): Loop
    decreases |events|
  {
    if events == [] then s
    else React(Run(s, events[..|events| - 1], dispatch), events[|events| - 1], dispatch)
  }

  /** The state when the main loop starts: the main window, then the windows of the start-up packet. */
  function Start(name: bytes, packet: bytes, respawns: bool): Loop {
    ApplyPass(Opens, MainWindow(name, respawns), packet)
  }

  function MainWindow(name: bytes, respawns: bool): Loop {
    var text := CString(name);
    Register(Loop([], 1, 2, [], None, 4, respawns, [], [], [], [], Wanted(None, map[]), false, !Fits(text)),
             text, 1, 3, 2)
  }
}
