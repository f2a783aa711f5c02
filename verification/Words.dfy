/** The fixed words of the native protocol, as bytes. */
module Words {
  import opened Bytes

  // Packet words
  const IMMEDIATE: bytes := [105, 109, 109, 101, 100, 105, 97, 116, 101] // immediate
  const DEFERRED: bytes := [100, 101, 102, 101, 114, 114, 101, 100] // deferred
  const OPS_VERSION: bytes := [108, 101, 112, 117, 115, 97, 45, 111, 112, 115, 45, 118, 51] // lepusa-ops-v3
  // lepusa-drain-v1\n
  const DRAIN_PREFIX: bytes := [108, 101, 112, 117, 115, 97, 45, 100, 114, 97, 105, 110, 45, 118, 49, 10]

  // Record kinds
  // evaluate-script
  const EVALUATE_SCRIPT: bytes := [101, 118, 97, 108, 117, 97, 116, 101, 45, 115, 99, 114, 105, 112, 116]
  // drain-bridge-window
  const DRAIN_BRIDGE_WINDOW: bytes := [100, 114, 97, 105, 110, 45, 98, 114, 105, 100, 103, 101, 45, 119, 105, 110,
                                       100, 111, 119]
  const OPEN_WINDOW: bytes := [111, 112, 101, 110, 45, 119, 105, 110, 100, 111, 119] // open-window
  const CLOSE_WINDOW: bytes := [99, 108, 111, 115, 101, 45, 119, 105, 110, 100, 111, 119] // close-window
  const WINDOW_CONTROL: bytes := [119, 105, 110, 100, 111, 119, 45, 99, 111, 110, 116, 114, 111, 108] // window-control
  // navigate-window
  const NAVIGATE_WINDOW: bytes := [110, 97, 118, 105, 103, 97, 116, 101, 45, 119, 105, 110, 100, 111, 119]
  const DESKTOP_SHELL: bytes := [100, 101, 115, 107, 116, 111, 112, 45, 115, 104, 101, 108, 108] // desktop-shell

  // Window actions
  const SET_TITLE: bytes := [115, 101, 116, 84, 105, 116, 108, 101] // setTitle
  const SET_SIZE: bytes := [115, 101, 116, 83, 105, 122, 101] // setSize
  const SET_POSITION: bytes := [115, 101, 116, 80, 111, 115, 105, 116, 105, 111, 110] // setPosition
  const SET_FULLSCREEN: bytes := [115, 101, 116, 70, 117, 108, 108, 115, 99, 114, 101, 101, 110] // setFullscreen
  const SHOW: bytes := [115, 104, 111, 119] // show
  const FOCUS: bytes := [102, 111, 99, 117, 115] // focus
  const HIDE: bytes := [104, 105, 100, 101] // hide
  const MINIMIZE: bytes := [109, 105, 110, 105, 109, 105, 122, 101] // minimize
  const MAXIMIZE: bytes := [109, 97, 120, 105, 109, 105, 122, 101] // maximize
  const UNMAXIMIZE: bytes := [117, 110, 109, 97, 120, 105, 109, 105, 122, 101] // unmaximize
  const CLOSE: bytes := [99, 108, 111, 115, 101] // close

  // Shell actions
  const SET_APP_MENU: bytes := [115, 101, 116, 65, 112, 112, 77, 101, 110, 117] // setAppMenu
  const CLEAR_APP_MENU: bytes := [99, 108, 101, 97, 114, 65, 112, 112, 77, 101, 110, 117] // clearAppMenu
  const SET_WINDOW_MENU: bytes := [115, 101, 116, 87, 105, 110, 100, 111, 119, 77, 101, 110, 117] // setWindowMenu
  // clearWindowMenu
  const CLEAR_WINDOW_MENU: bytes := [99, 108, 101, 97, 114, 87, 105, 110, 100, 111, 119, 77, 101, 110, 117]
  const SET_ITEM_ENABLED: bytes := [115, 101, 116, 73, 116, 101, 109, 69, 110, 97, 98, 108, 101, 100] // setItemEnabled
  const SET_ITEM_CHECKED: bytes := [115, 101, 116, 73, 116, 101, 109, 67, 104, 101, 99, 107, 101, 100] // setItemChecked
  const RESTART: bytes := [114, 101, 115, 116, 97, 114, 116] // restart
  const EXIT: bytes := [101, 120, 105, 116] // exit
  const MENU_DOMAIN: bytes := [109, 101, 110, 117, 46] // menu.
  const APP_DOMAIN: bytes := [97, 112, 112, 46] // app.

  // JSON words
  const TRUE: bytes := [116, 114, 117, 101] // true
  const FALSE: bytes := [102, 97, 108, 115, 101] // false
  const NULL_WORD: bytes := [110, 117, 108, 108] // null
  const KIND: bytes := [107, 105, 110, 100] // kind
  const LABEL: bytes := [108, 97, 98, 101, 108] // label
  const ID: bytes := [105, 100] // id
  const ITEMS: bytes := [105, 116, 101, 109, 115] // items
  const ENABLED: bytes := [101, 110, 97, 98, 108, 101, 100] // enabled
  const CHECKED: bytes := [99, 104, 101, 99, 107, 101, 100] // checked
  const SEPARATOR: bytes := [115, 101, 112, 97, 114, 97, 116, 111, 114] // separator
  const CHECK: bytes := [99, 104, 101, 99, 107] // check
  const SUBMENU: bytes := [115, 117, 98, 109, 101, 110, 117] // submenu
  const ACTION: bytes := [97, 99, 116, 105, 111, 110] // action

  // ----- the words as the source writes them -----

  lemma PacketWords()
    ensures Ascii("immediate") == IMMEDIATE && Ascii("deferred") == DEFERRED
    ensures Ascii("lepusa-ops-v3") == OPS_VERSION && Ascii("lepusa-drain-v1\n") == DRAIN_PREFIX
  {}

  lemma KindWords()
    ensures Ascii("evaluate-script") == EVALUATE_SCRIPT && Ascii("drain-bridge-window") == DRAIN_BRIDGE_WINDOW
    ensures Ascii("open-window") == OPEN_WINDOW && Ascii("close-window") == CLOSE_WINDOW
    ensures Ascii("window-control") == WINDOW_CONTROL && Ascii("navigate-window") == NAVIGATE_WINDOW
    ensures Ascii("desktop-shell") == DESKTOP_SHELL
  {
    hide Ascii;
    ScriptWords();
    WindowWords();
  }

  lemma ScriptWords()
    ensures Ascii("evaluate-script") == EVALUATE_SCRIPT && Ascii("drain-bridge-window") == DRAIN_BRIDGE_WINDOW
    ensures Ascii("desktop-shell") == DESKTOP_SHELL
  {}

  lemma WindowWords()
    ensures Ascii("open-window") == OPEN_WINDOW && Ascii("close-window") == CLOSE_WINDOW
    ensures Ascii("window-control") == WINDOW_CONTROL && Ascii("navigate-window") == NAVIGATE_WINDOW
  {}

  lemma ControlWords()
    ensures Ascii("setTitle") == SET_TITLE && Ascii("setSize") == SET_SIZE
    ensures Ascii("setPosition") == SET_POSITION && Ascii("setFullscreen") == SET_FULLSCREEN
    ensures Ascii("show") == SHOW && Ascii("focus") == FOCUS && Ascii("hide") == HIDE
    ensures Ascii("minimize") == MINIMIZE && Ascii("maximize") == MAXIMIZE && Ascii("unmaximize") == UNMAXIMIZE
    ensures Ascii("close") == CLOSE
  {
    hide Ascii;
    SetterWords();
    StateWords();
  }

  lemma SetterWords()
    ensures Ascii("setTitle") == SET_TITLE && Ascii("setSize") == SET_SIZE
    ensures Ascii("setPosition") == SET_POSITION && Ascii("setFullscreen") == SET_FULLSCREEN
  {}

  lemma StateWords()
    ensures Ascii("show") == SHOW && Ascii("focus") == FOCUS && Ascii("hide") == HIDE
    ensures Ascii("minimize") == MINIMIZE && Ascii("maximize") == MAXIMIZE && Ascii("unmaximize") == UNMAXIMIZE
    ensures Ascii("close") == CLOSE
  {}

  lemma MenuWords()
    ensures Ascii("setAppMenu") == SET_APP_MENU && Ascii("clearAppMenu") == CLEAR_APP_MENU
    ensures Ascii("setWindowMenu") == SET_WINDOW_MENU && Ascii("clearWindowMenu") == CLEAR_WINDOW_MENU
    ensures Ascii("setItemEnabled") == SET_ITEM_ENABLED && Ascii("setItemChecked") == SET_ITEM_CHECKED
    ensures Ascii("menu.") == MENU_DOMAIN
  {}

  lemma AppWords()
    ensures Ascii("restart") == RESTART && Ascii("exit") == EXIT && Ascii("show") == SHOW && Ascii("hide") == HIDE
    ensures Ascii("app.") == APP_DOMAIN
  {}

  lemma JsonWords()
    ensures Ascii("true") == TRUE && Ascii("false") == FALSE && Ascii("null") == NULL_WORD
    ensures Ascii("kind") == KIND && Ascii("label") == LABEL && Ascii("id") == ID && Ascii("items") == ITEMS
    ensures Ascii("enabled") == ENABLED && Ascii("checked") == CHECKED && Ascii("separator") == SEPARATOR
    ensures Ascii("check") == CHECK && Ascii("submenu") == SUBMENU && Ascii("action") == ACTION
  {
    hide Ascii;
    MemberWords();
    ItemWords();
  }

  lemma MemberWords()
    ensures Ascii("true") == TRUE && Ascii("false") == FALSE && Ascii("null") == NULL_WORD
    ensures Ascii("kind") == KIND && Ascii("label") == LABEL && Ascii("id") == ID && Ascii("items") == ITEMS
  {}

  lemma ItemWords()
    ensures Ascii("enabled") == ENABLED && Ascii("checked") == CHECKED && Ascii("separator") == SEPARATOR
    ensures Ascii("check") == CHECK && Ascii("submenu") == SUBMENU && Ascii("action") == ACTION
  {}
}
