/** Permissions and their names. */
module Permissions {
  import opened Results
  import opened Scopes

  datatype Permission =
    | App | FileSystemRead | FileSystemWrite | FileDialog | Network | Localhost | DeepLink | SingleInstance
    | Menu | Tray | AutoLaunch | Window | WindowState | Updater | ServiceDiscovery | Shell | Opener | Dialog
    | Clipboard | Notification | ProcessInfo | ProcessEnvironment | ProcessControl
    | Custom(route: string)

  function Name(permission: Permission): string {
    match permission
    case App => "app"
    case FileSystemRead => "filesystem.read"
    case FileSystemWrite => "filesystem.write"
    case FileDialog => "file-dialog"
    case Network => "network"
    case Localhost => "localhost"
    case DeepLink => "deep-link"
    case SingleInstance => "single-instance"
    case Menu => "menu"
    case Tray => "tray"
    case AutoLaunch => "auto-launch"
    case Window => "window"
    case WindowState => "window-state"
    case Updater => "updater"
    case ServiceDiscovery => "service-discovery"
    case Shell => "shell"
    case Opener => "opener"
    case Dialog => "dialog"
    case Clipboard => "clipboard"
    case Notification => "notification"
    case ProcessInfo => "process.info"
    case ProcessEnvironment => "process.environment"
    case ProcessControl => "process.control"
    case Custom(route) => "custom:" + route
  }

  /** The names as a policy is written with them. */
  lemma NamesRead()
    ensures Name(App) == "app" && Name(FileSystemRead) == "filesystem.read" && Name(FileDialog) == "file-dialog"
    ensures Name(FileSystemWrite) == "filesystem.write" && Name(Network) == "network" && Name(Localhost) == "localhost"
    ensures Name(DeepLink) == "deep-link" && Name(SingleInstance) == "single-instance" && Name(Menu) == "menu"
    ensures Name(Tray) == "tray" && Name(AutoLaunch) == "auto-launch" && Name(Window) == "window"
    ensures Name(WindowState) == "window-state" && Name(Updater) == "updater" && Name(Opener) == "opener"
    ensures Name(ServiceDiscovery) == "service-discovery" && Name(Shell) == "shell" && Name(Dialog) == "dialog"
    ensures Name(Clipboard) == "clipboard" && Name(Notification) == "notification"
    ensures Name(ProcessInfo) == "process.info" && Name(ProcessEnvironment) == "process.environment"
    ensures Name(ProcessControl) == "process.control" && Name(Custom("a.b")) == "custom:a.b"
  {}

  /** The fixed names, in three parts. */
  function GeneralNamed(name: string): (r: Option<Permission>)
    ensures r.Some? ==> !r.value.Custom? && Name(r.value) == name
  {
    if name == "app" then Some(App)
    else if name == "filesystem.read" then Some(FileSystemRead)
    else if name == "filesystem.write" then Some(FileSystemWrite)
    else if name == "file-dialog" then Some(FileDialog)
    else if name == "network" then Some(Network)
    else if name == "localhost" then Some(Localhost)
    else if name == "deep-link" then Some(DeepLink)
    else if name == "single-instance" then Some(SingleInstance)
    else None
  }

  function DesktopNamed(name: string): (r: Option<Permission>)
    ensures r.Some? ==> !r.value.Custom? && Name(r.value) == name
  {
    if name == "menu" then Some(Menu)
    else if name == "tray" then Some(Tray)
    else if name == "auto-launch" then Some(AutoLaunch)
    else if name == "window" then Some(Window)
    else if name == "window-state" then Some(WindowState)
    else if name == "updater" then Some(Updater)
    else if name == "service-discovery" then Some(ServiceDiscovery)
    else if name == "shell" then Some(Shell)
    else None
  }

  function SystemNamed(name: string): (r: Option<Permission>)
    ensures r.Some? ==> !r.value.Custom? && Name(r.value) == name
  {
    if name == "opener" then Some(Opener)
    else if name == "dialog" then Some(Dialog)
    else if name == "clipboard" then Some(Clipboard)
    else if name == "notification" then Some(Notification)
    else if name == "process.info" then Some(ProcessInfo)
    else if name == "process.environment" then Some(ProcessEnvironment)
    else if name == "process.control" then Some(ProcessControl)
    else None
  }

  function FixedNamed(name: string): Option<Permission> {
    if GeneralNamed(name).Some? then GeneralNamed(name)
    else if DesktopNamed(name).Some? then DesktopNamed(name)
    else SystemNamed(name)
  }

  function Named(name: string): Result<Permission, string> {
    if FixedNamed(name).Some? then Ok(FixedNamed(name).value)
    else if HasPrefix(name, "custom:") then
      if name[7..] == "" then Err("custom permission name is required") else Ok(Custom(name[7..]))
    else Err("unknown permission: " + name)
  }

  /** Length and first letter tell the fixed names apart. */
  lemma NamesTellApart(p: Permission, q: Permission)
    requires Name(p) == Name(q) && !p.Custom? && !q.Custom?
    ensures p == q
  {
    assert |Name(p)| == |Name(q)| && Name(p)[0] == Name(q)[0];
  }

  lemma FixedIsNotCustom(p: Permission, route: string)
    requires !p.Custom?
    ensures Name(p) != "custom:" + route
  {
    assert ("custom:" + route)[0] == 'c' && ("custom:" + route)[1] == 'u' && |"custom:" + route| >= 7;
    assert |Name(p)| >= 7 && Name(p)[0] == 'c' ==> Name(p)[1] == 'l';
  }

  lemma NamedGivesName(name: string)
    ensures Named(name).Ok? ==> Name(Named(name).value) == name && Named(name).value != Custom("")
  {
    hide GeneralNamed, DesktopNamed, SystemNamed;
    if FixedNamed(name).None? && HasPrefix(name, "custom:") {
      assert name == "custom:" + name[7..];
    }
  }

  lemma FixedAccepts(p: Permission)
    requires !p.Custom?
    ensures FixedNamed(Name(p)).Some?
  {}

  lemma NamedAccepts(p: Permission)
    ensures Named(Name(p)).Ok? <==> p != Custom("")
  {
    hide GeneralNamed, DesktopNamed, SystemNamed;
    if p.Custom? {
      var name := Name(p);
      assert HasPrefix(name, "custom:") && name[7..] == p.route;
      NotFixed(p.route);
    } else {
      FixedAccepts(p);
    }
  }

  lemma NotFixed(route: string)
    ensures forall p: Permission :: !p.Custom? ==> Name(p) != "custom:" + route
  {
    hide Name;
    forall p: Permission | !p.Custom? ensures Name(p) != "custom:" + route {
      FixedIsNotCustom(p, route);
    }
  }

  /** Parsing a name gives exactly the permission of that name; only the custom permission without a
      name has none. */
  lemma NamesRoundTrip(p: Permission, name: string)
    ensures Named(name) == Ok(p) <==> name == Name(p) && p != Custom("")
  {
    hide Named, Name;
    NamedGivesName(name);
    NamedAccepts(p);
    if name == Name(p) && Named(name).Ok? {
      NamesInjective(p, Named(name).value);
    }
  }

  lemma NamesInjective(p: Permission, q: Permission)
    requires Name(p) == Name(q)
    ensures p == q
  {
    if !p.Custom? && !q.Custom? {
      NamesTellApart(p, q);
    } else if p.Custom? && q.Custom? {
      assert Name(p)[7..] == p.route && Name(q)[7..] == q.route;
    } else if p.Custom? {
      FixedIsNotCustom(q, p.route);
    } else {
      FixedIsNotCustom(p, q.route);
    }
  }
}
