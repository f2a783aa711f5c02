/** What a packet with one desktop-shell record does, action by action. */
module ShellEffects {
  import opened Results
  import opened Bytes
  import opened Words
  import opened PacketCodec
  import opened LoopSpec
  import opened LoopInvariants
  import opened LoopTheorems
  import opened PacketEffects

  /** The action by its own name or behind its domain. */
  predicate Named(action: bytes, domain: string, name: string) {
    action == Ascii(name) || action == Ascii(domain) + Ascii(name)
  }

  ghost predicate Shelling(s: Loop, packet: bytes, r: Record) {
    Inv(s) && Carries(packet, [r]) && r.kind == Ascii("desktop-shell")
  }

  lemma ShellDone(s: Loop, packet: bytes, r: Record)
    requires Shelling(s, packet, r)
    ensures ApplyOperations(s, packet) == ShellAction(s, r) && r.kind == DESKTOP_SHELL && Inv(s)
  {
    hide ApplyOperations, Carries, PassOf, Visited, Ascii, Inv, ShellAction;
    CarriesVisited(packet, [r]);
    Kinds(r);
    SingleRecord(s, packet, Shell, r);
  }

  lemma MenuLengths()
    ensures |SET_APP_MENU| == 10 && |CLEAR_APP_MENU| == 12 && |SET_WINDOW_MENU| == 13 && |CLEAR_WINDOW_MENU| == 15
    ensures |MENU_DOMAIN| == 5 && MENU_DOMAIN[0] != CLEAR_WINDOW_MENU[0]
  {}

  lemma AppLengths()
    ensures |RESTART| == 7 && |EXIT| == 4 && |SHOW| == 4 && |HIDE| == 4 && |APP_DOMAIN| == 4
    ensures EXIT != SHOW && EXIT != HIDE && SHOW != HIDE
  {
    assert EXIT[0] != SHOW[0] && EXIT[0] != HIDE[0] && SHOW[0] != HIDE[0];
  }

  /** The actions of the two domains are told apart by their lengths. */
  lemma NotMenu(action: bytes)
    requires |action| == 4 || |action| == 7 || |action| == 8 || |action| == 11
    ensures !IsAction(action, MENU_DOMAIN, SET_APP_MENU) && !IsAction(action, MENU_DOMAIN, CLEAR_APP_MENU)
    ensures !IsAction(action, MENU_DOMAIN, SET_WINDOW_MENU) && !IsAction(action, MENU_DOMAIN, CLEAR_WINDOW_MENU)
  {
    hide SET_APP_MENU, CLEAR_APP_MENU, SET_WINDOW_MENU, CLEAR_WINDOW_MENU;
    MenuLengths();
  }

  lemma AppName(action: bytes, name: bytes)
    requires IsAction(action, APP_DOMAIN, name) && name in [RESTART, EXIT, SHOW, HIDE]
    ensures |action| == |name| || |action| == |name| + 4
    ensures action[|action| - |name|..] == name
    ensures forall other :: other in [RESTART, EXIT, SHOW, HIDE] && IsAction(action, APP_DOMAIN, other) ==>
            other == name
  {
    AppLengths();
    assert (APP_DOMAIN + name)[4..] == name;
    forall other | other in [RESTART, EXIT, SHOW, HIDE] && IsAction(action, APP_DOMAIN, other) ensures other == name {
      assert (APP_DOMAIN + other)[4..] == other;
    }
  }

  // ----- application actions -----

  /** Every window is destroyed, the last slot first; then service termination and quit are asked for. */
  ghost predicate AllClosed(s: Loop, t: Loop) {
    && t.slots == [] && t.primary == 0 && t.primaryView == 0
    && t.calls == s.calls + CloseCalls(s.slots) + (if s.slots == [] then [] else [TerminateServices, MainQuit(0)])
    && t == s.(slots := t.slots, calls := t.calls, primary := t.primary, primaryView := t.primaryView)
  }

  lemma CloseAllCloses(s: Loop)
    requires Inv(s)
    ensures AllClosed(s, CloseAll(s))
  {
    hide DrainsConserved, MenusShown, CloseDown, QuitSafe;
    CloseDownExact(s, |s.slots|);
    PrimaryExists(s);
    assert s.calls + [] + [] == s.calls;
    assert s.slots == [] ==> CloseCalls(s.slots) == [];
  }

  lemma ActionOf(action: bytes, name: string, word: bytes)
    requires Named(action, "app.", name) && Ascii(name) == word && word in [RESTART, EXIT, SHOW, HIDE]
    ensures IsAction(action, APP_DOMAIN, word)
  {
    hide Ascii;
    AppWords();
  }

  /** Exit closes everything; so does restart, if a copy of the process could be started. */
  lemma ExitEffect(s: Loop, packet: bytes, r: Record)
    requires Shelling(s, packet, r)
    ensures Named(r.action, "app.", "exit") ==> AllClosed(s, ApplyOperations(s, packet))
    ensures Named(r.action, "app.", "restart") && s.respawns ==> AllClosed(s, ApplyOperations(s, packet))
    ensures Named(r.action, "app.", "restart") && !s.respawns ==> ApplyOperations(s, packet) == s
  {
    hide ApplyOperations, Ascii, Inv, CloseAll, AllClosed, IsAction, Named, Carries, Target;
    ShellDone(s, packet, r);
    CloseAllCloses(s);
    AppWords();
    if Named(r.action, "app.", "exit") {
      ActionOf(r.action, "exit", EXIT);
      AppName(r.action, EXIT);
      AppLengths();
      NotMenu(r.action);
    }
    if Named(r.action, "app.", "restart") {
      ActionOf(r.action, "restart", RESTART);
      AppName(r.action, RESTART);
      AppLengths();
      NotMenu(r.action);
    }
  }

  /** Show and hide reach the window the label reaches. */
  lemma ShowEffect(s: Loop, packet: bytes, r: Record, i: nat)
    requires Shelling(s, packet, r) && Reached(s.slots, r.window, i)
    ensures Named(r.action, "app.", "show") ==>
              Calls(s, packet, [ShowAll(s.slots[i].window), Present(s.slots[i].window)])
    ensures Named(r.action, "app.", "hide") ==> Calls(s, packet, [Hide(s.slots[i].window)])
  {
    hide ApplyOperations, Ascii, QuitSafe, DrainsConserved, MenusShown, CloseAll, IsAction, Named, Carries, Target,
         Reached;
    ShellDone(s, packet, r);
    ReachedExact(s.slots, r.window, i);
    LiveWindows(s);
    AppWords();
    AppLengths();
    assert s.calls + [ShowAll(s.slots[i].window)] + [Present(s.slots[i].window)] ==
           s.calls + [ShowAll(s.slots[i].window), Present(s.slots[i].window)];
    if Named(r.action, "app.", "show") {
      ActionOf(r.action, "show", SHOW);
      AppName(r.action, SHOW);
      NotMenu(r.action);
    }
    if Named(r.action, "app.", "hide") {
      ActionOf(r.action, "hide", HIDE);
      AppName(r.action, HIDE);
      NotMenu(r.action);
    }
  }

  // ----- menu actions -----

  lemma MenuActionOf(action: bytes, name: string, word: bytes)
    requires Named(action, "menu.", name) && Ascii(name) == word
    ensures IsAction(action, MENU_DOMAIN, word)
  {
    hide Ascii;
    MenuWords();
  }

  /** The bar of a payload, or the present one if the payload gives none. */
  function Shown(payload: bytes, present: Option<Menu>): Option<Menu> {
    if Bar(payload).Some? then Bar(payload) else present
  }

  /** The application menu is stored and shown by the windows without a menu of their own. */
  lemma SetAppMenuEffect(s: Loop, packet: bytes, r: Record)
    requires Shelling(s, packet, r) && Named(r.action, "menu.", "setAppMenu")
    ensures var t := ApplyOperations(s, packet);
            && (r.url == [] ==> t == s)
            && (r.url != [] ==> t.appMenu == Some(r.url))
            && |t.slots| == |s.slots|
            && (forall k :: 0 <= k < |s.slots| && s.slots[k].hasWindowMenu ==> t.slots[k] == s.slots[k])
            && (r.url != [] ==> forall k :: 0 <= k < |s.slots| && !s.slots[k].hasWindowMenu ==>
                  t.slots[k] == s.slots[k].(menuBar := Shown(r.url, s.slots[k].menuBar)))
            && t == s.(slots := t.slots, appMenu := t.appMenu, wanted := t.wanted, drifted := t.drifted)
  {
    hide ApplyOperations, Ascii, QuitSafe, DrainsConserved, MenusShown, CloseAll, Named, Carries, Target, Bar,
         AppMenuFits;
    ShellDone(s, packet, r);
    LiveWindows(s);
    MenuWords();
    MenuActionOf(r.action, "setAppMenu", SET_APP_MENU);
  }

  lemma ClearAppMenuEffect(s: Loop, packet: bytes, r: Record)
    requires Shelling(s, packet, r) && Named(r.action, "menu.", "clearAppMenu")
    ensures var t := ApplyOperations(s, packet);
            && t.appMenu == None && |t.slots| == |s.slots|
            && (forall k :: 0 <= k < |s.slots| ==>
                  t.slots[k] == if s.slots[k].hasWindowMenu then s.slots[k] else s.slots[k].(menuBar := None))
            && t == s.(slots := t.slots, appMenu := t.appMenu, wanted := t.wanted)
  {
    hide ApplyOperations, Ascii, QuitSafe, DrainsConserved, MenusShown, CloseAll, Named, Carries, Target, Bar;
    ShellDone(s, packet, r);
    LiveWindows(s);
    MenuWords();
    MenuLengths();
    MenuActionOf(r.action, "clearAppMenu", CLEAR_APP_MENU);
    assert !IsAction(r.action, MENU_DOMAIN, SET_APP_MENU);
  }

  lemma WindowMenuEffect(s: Loop, packet: bytes, r: Record, i: nat)
    requires Shelling(s, packet, r) && Reached(s.slots, r.window, i)
    ensures var t := ApplyOperations(s, packet);
            var slot := s.slots[i];
            && (Named(r.action, "menu.", "setWindowMenu") ==>
                  t.slots == s.slots[i := slot.(hasWindowMenu := true, menuBar := Shown(r.url, slot.menuBar))])
            && (Named(r.action, "menu.", "clearWindowMenu") ==>
                  var bar := if s.appMenu.Some? then Shown(s.appMenu.value, slot.menuBar) else None;
                  t.slots == s.slots[i := slot.(hasWindowMenu := false, menuBar := bar)])
            && (Named(r.action, "menu.", "setWindowMenu") || Named(r.action, "menu.", "clearWindowMenu") ==>
                  t == s.(slots := t.slots, wanted := t.wanted, drifted := t.drifted))
  {
    hide ApplyOperations, Ascii, QuitSafe, DrainsConserved, MenusShown, CloseAll, Named, Carries, Target, Bar, Reached,
         WindowMenuFits, ClearFits;
    ShellDone(s, packet, r);
    ReachedExact(s.slots, r.window, i);
    MenuWords();
    MenuLengths();
    if Named(r.action, "menu.", "setWindowMenu") {
      MenuActionOf(r.action, "setWindowMenu", SET_WINDOW_MENU);
    }
    if Named(r.action, "menu.", "clearWindowMenu") {
      MenuActionOf(r.action, "clearWindowMenu", CLEAR_WINDOW_MENU);
    }
  }

  /** Every other action, such as those of the tray, leaves the loop as it is. */
  lemma OtherActions(s: Loop, packet: bytes, r: Record)
    requires Shelling(s, packet, r)
    requires !Named(r.action, "menu.", "setAppMenu") && !Named(r.action, "menu.", "clearAppMenu")
    requires !Named(r.action, "menu.", "setWindowMenu") && !Named(r.action, "menu.", "clearWindowMenu")
    requires !Named(r.action, "app.", "restart") && !Named(r.action, "app.", "exit")
    requires !Named(r.action, "app.", "show") && !Named(r.action, "app.", "hide")
    ensures ApplyOperations(s, packet) == s
  {
    hide ApplyOperations, Ascii, Inv, Carries, Target;
    ShellDone(s, packet, r);
    MenuWords();
    AppWords();
  }

  /** Without a window only the application menu can change. */
  lemma NoWindowEffect(s: Loop, packet: bytes, r: Record)
    requires Shelling(s, packet, r) && s.slots == []
    requires !Named(r.action, "menu.", "setAppMenu") && !Named(r.action, "menu.", "clearAppMenu")
    ensures ApplyOperations(s, packet) == s
  {
    hide ApplyOperations, Ascii, Inv, Carries, Target;
    ShellDone(s, packet, r);
    MenuWords();
    assert Target(s.slots, r.window).None?;
    assert CloseDown(s, 0) == s;
  }
}
