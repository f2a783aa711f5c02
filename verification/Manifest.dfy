/** The command manifest: the policy compiled, command by command, for a given set of windows. */
module Manifest {
  import opened Results
  import opened Permissions
  import opened Policy

  /** `details` stands for the mode, the affinity and the two schemas, which are carried along unchanged. */
  datatype Command = Command(name: string, permission: Permission, details: string)

  datatype Plugin = Plugin(name: string, commands: seq<Command>)

  datatype Entry = Entry(
    plugin: string, command: Command, route: string,
    allowedWindows: seq<string>, allowedOrigins: seq<string>, allowedPlatforms: seq<string>)

  function Route(plugin: string, command: string): string {
    plugin + "." + command
  }

  // ----- compiling one command -----

  function AllowedWindows(policy: seq<Capability>, windows: seq<string>, permission: Permission,
                          platform: string): seq<string>
  {
    if windows == [] then []
    else
      var listed := exists k :: 0 <= k < |policy| && Applies(policy[k], windows[0], permission, platform);
      (if listed then [windows[0]] else []) + AllowedWindows(policy, windows[1..], permission, platform)
  }

  /** The origin lists of the windows, as the policy compiles them. */
  function WindowOrigins(policy: seq<Capability>, windows: seq<string>, permission: Permission,
                         platform: string): seq<seq<string>>
  {
    if windows == [] then []
    else [AllowedOrigins(policy, windows[0], permission, platform)] +
         WindowOrigins(policy, windows[1..], permission, platform)
  }

  predicate AppliesToAny(c: Capability, windows: seq<string>) {
    c.windows == [] || exists k :: 0 <= k < |windows| && windows[k] in c.windows
  }

  /** The capability grants the permission and is about one of the windows, or about all. */
  predicate Concerns(c: Capability, windows: seq<string>, permission: Permission) {
    permission in c.permissions && AppliesToAny(c, windows)
  }

  function PlatformLists(policy: seq<Capability>, windows: seq<string>, permission: Permission): seq<seq<string>> {
    if policy == [] then []
    else (if Concerns(policy[0], windows, permission) then [policy[0].platforms] else []) +
         PlatformLists(policy[1..], windows, permission)
  }

  function Compile(policy: seq<Capability>, windows: seq<string>, platform: string, plugin: string,
                   command: Command): Entry
  {
    var allowed := AllowedWindows(policy, windows, command.permission, platform);
    Entry(plugin, command, Route(plugin, command.name), allowed,
          Merge([], WindowOrigins(policy, allowed, command.permission, platform)),
          Merge([], PlatformLists(policy, allowed, command.permission)))
  }

  function CompileCommands(policy: seq<Capability>, windows: seq<string>, platform: string, plugin: string,
                           commands: seq<Command>): seq<Entry>
  {
    if commands == [] then []
    else [Compile(policy, windows, platform, plugin, commands[0])] +
         CompileCommands(policy, windows, platform, plugin, commands[1..])
  }

  function FromPlugins(plugins: seq<Plugin>, policy: seq<Capability>, windows: seq<string>,
                       platform: string): seq<Entry>
  {
    if plugins == [] then []
    else CompileCommands(policy, windows, platform, plugins[0].name, plugins[0].commands) +
         FromPlugins(plugins[1..], policy, windows, platform)
  }

  /** The entry admits the window, the origin and the platform. */
  predicate EntryAllows(e: Entry, window: string, origin: string, platform: string) {
    window in e.allowedWindows && Admits(e.allowedOrigins, origin) && Admits(e.allowedPlatforms, platform)
  }

  /** The first entry with the route decides. */
  function Find(entries: seq<Entry>, route: string): Option<Entry> {
    if entries == [] then None else if entries[0].route == route then Some(entries[0]) else Find(entries[1..], route)
  }

  predicate ManifestAllows(entries: seq<Entry>, route: string, window: string, origin: string, platform: string) {
    var entry := Find(entries, route);
    entry.Some? && EntryAllows(entry.value, window, origin, platform)
  }

  // ----- what an entry says -----

  lemma {:induction false} AllowedWindowsExact(policy: seq<Capability>, windows: seq<string>, permission: Permission,
                                               platform: string)
    ensures forall w :: w in AllowedWindows(policy, windows, permission, platform) <==>
                        w in windows && WindowAllowed(policy, w, permission, platform)
    decreases |windows|
  {
    hide Applies;
    if windows != [] {
      AllowedWindowsExact(policy, windows[1..], permission, platform);
      assert windows == [windows[0]] + windows[1..];
      assert WindowAllowed(policy, windows[0], permission, platform) <==>
        exists k :: 0 <= k < |policy| && Applies(policy[k], windows[0], permission, platform);
    }
  }

  /** A window is listed exactly when it is one of the granted windows and the policy allows the
      permission there for some origin. */
  lemma ListedExact(policy: seq<Capability>, windows: seq<string>, platform: string, plugin: string, command: Command,
                    window: string)
    ensures window in Compile(policy, windows, platform, plugin, command).allowedWindows <==>
            && window in windows
            && exists origin :: PolicyAllows(policy, Request(window, origin, platform, command.permission))
  {
    hide Merge, WindowOrigins, PlatformLists, PolicyAllows, AllowedWindows;
    AllowedWindowsExact(policy, windows, command.permission, platform);
    WindowAllowedExact(policy, window, command.permission, platform);
  }

  lemma {:induction false} WindowOriginsAt(policy: seq<Capability>, windows: seq<string>, permission: Permission,
                                           platform: string)
    ensures |WindowOrigins(policy, windows, permission, platform)| == |windows|
    ensures forall k :: 0 <= k < |windows| ==>
              WindowOrigins(policy, windows, permission, platform)[k] ==
                AllowedOrigins(policy, windows[k], permission, platform)
    decreases |windows|
  {
    hide AllowedOrigins;
    if windows != [] {
      WindowOriginsAt(policy, windows[1..], permission, platform);
    }
  }

  /** The policy allows the request for one of the windows. */
  ghost predicate AllowedForSome(policy: seq<Capability>, windows: seq<string>, permission: Permission,
                                 origin: string, platform: string)
  {
    exists k :: 0 <= k < |windows| && PolicyAllows(policy, Request(windows[k], origin, platform, permission))
  }

  /** The compiled origin list admits exactly the origins the policy allows for some listed window. When
      no window is listed it admits every origin, though the policy allows none. */
  lemma OriginsExact(policy: seq<Capability>, windows: seq<string>, platform: string, plugin: string,
                     command: Command, origin: string)
    ensures var e := Compile(policy, windows, platform, plugin, command);
            && (e.allowedWindows != [] ==>
                  (Admits(e.allowedOrigins, origin) <==>
                   AllowedForSome(policy, e.allowedWindows, command.permission, origin, platform)))
            && (e.allowedWindows == [] ==>
                  Admits(e.allowedOrigins, origin) &&
                    !AllowedForSome(policy, windows, command.permission, origin, platform))
  {
    hide Merge, PlatformLists, PolicyAllows, AllowedWindows, WindowOrigins, Admits, WindowAllowed;
    var e := Compile(policy, windows, platform, plugin, command);
    var lists := WindowOrigins(policy, e.allowedWindows, command.permission, platform);
    AllowedWindowsExact(policy, windows, command.permission, platform);
    WindowOriginsAt(policy, e.allowedWindows, command.permission, platform);
    MergeAdmits(lists, origin);
    forall k | 0 <= k < |e.allowedWindows|
      ensures PolicyAllows(policy, Request(e.allowedWindows[k], origin, platform, command.permission)) <==>
              Admits(lists[k], origin)
    {
      assert e.allowedWindows[k] in e.allowedWindows;
      AllowedOriginsExact(policy, Request(e.allowedWindows[k], origin, platform, command.permission));
    }
    forall k | 0 <= k < |windows| && PolicyAllows(policy, Request(windows[k], origin, platform, command.permission))
      ensures windows[k] in e.allowedWindows
    {
      AllowedOriginsExact(policy, Request(windows[k], origin, platform, command.permission));
    }
  }

  lemma {:induction false} PlatformListsExact(policy: seq<Capability>, windows: seq<string>, permission: Permission)
    ensures forall l :: l in PlatformLists(policy, windows, permission) <==>
              exists k :: 0 <= k < |policy| && Concerns(policy[k], windows, permission) && policy[k].platforms == l
    decreases |policy|
  {
    hide Concerns;
    if policy != [] {
      var rest := policy[1..];
      PlatformListsExact(rest, windows, permission);
      forall l ensures l in PlatformLists(policy, windows, permission) <==>
                       exists k :: 0 <= k < |policy| && Concerns(policy[k], windows, permission) &&
                         policy[k].platforms == l {
        if k :| 0 <= k < |rest| && Concerns(rest[k], windows, permission) && rest[k].platforms == l {
          assert policy[k + 1] == rest[k];
        }
        if k :| 0 <= k < |policy| && Concerns(policy[k], windows, permission) && policy[k].platforms == l {
          assert k > 0 ==> rest[k - 1] == policy[k];
        }
      }
    }
  }

  /** Some capability with the permission is about one of the windows and admits the platform. */
  ghost predicate PlatformGranted(policy: seq<Capability>, windows: seq<string>, permission: Permission,
                                  platform: string)
  {
    exists k :: 0 <= k < |policy| && Concerns(policy[k], windows, permission) && Admits(policy[k].platforms, platform)
  }

  lemma PlatformsExact(policy: seq<Capability>, windows: seq<string>, permission: Permission, platform: string)
    ensures Admits(Merge([], PlatformLists(policy, windows, permission)), platform) <==>
            PlatformLists(policy, windows, permission) == [] || PlatformGranted(policy, windows, permission, platform)
  {
    hide Merge, PlatformLists, Admits, Concerns;
    var lists := PlatformLists(policy, windows, permission);
    PlatformListsExact(policy, windows, permission);
    MergeAdmits(lists, platform);
    if PlatformGranted(policy, windows, permission, platform) {
      var k :| 0 <= k < |policy| && Concerns(policy[k], windows, permission) && Admits(policy[k].platforms, platform);
      assert policy[k].platforms in lists;
    }
    if i :| 0 <= i < |lists| && Admits(lists[i], platform) {
      assert lists[i] in lists;
    }
  }

  lemma ListedHasPlatform(policy: seq<Capability>, windows: seq<string>, window: string, permission: Permission,
                          platform: string)
    requires window in windows && WindowAllowed(policy, window, permission, platform)
    ensures PlatformGranted(policy, windows, permission, platform)
  {
    var k :| 0 <= k < |policy| && Applies(policy[k], window, permission, platform);
    var i :| 0 <= i < |windows| && windows[i] == window;
    assert AppliesToAny(policy[k], windows);
  }

  /** The policy allows the permission on the platform for one of the windows, whatever the origin. */
  ghost predicate PlatformAllowed(policy: seq<Capability>, windows: seq<string>, permission: Permission,
                                  platform: string)
  {
    exists w, origin :: w in windows && PolicyAllows(policy, Request(w, origin, platform, permission))
  }

  lemma PlatformIsAllowed(policy: seq<Capability>, windows: seq<string>, permission: Permission, platform: string)
    requires windows != []
    ensures PlatformGranted(policy, windows, permission, platform) <==>
            PlatformAllowed(policy, windows, permission, platform)
  {
    hide PolicyAllows, Admits;
    if PlatformGranted(policy, windows, permission, platform) {
      var k :| 0 <= k < |policy| && Concerns(policy[k], windows, permission) && Admits(policy[k].platforms, platform);
      var i := if policy[k].windows == [] then 0 else var i :| 0 <= i < |windows| && windows[i] in policy[k].windows; i;
      assert Admits(policy[k].windows, windows[i]) by { Listed(policy[k].windows, windows[i]); }
      assert Applies(policy[k], windows[i], permission, platform);
      WindowAllowedExact(policy, windows[i], permission, platform);
      assert windows[i] in windows;
    }
    if w, origin :| w in windows && PolicyAllows(policy, Request(w, origin, platform, permission)) {
      WindowAllowedExact(policy, w, permission, platform);
      ListedHasPlatform(policy, windows, w, permission, platform);
    }
  }

  lemma Listed(list: seq<string>, x: string)
    ensures list == [] || x in list ==> Admits(list, x)
  {}

  /** For every platform, not only the one it was compiled for, an entry with a listed window admits exactly
      those on which the policy allows the permission for some listed window. */
  lemma AdmittedPlatformsExact(policy: seq<Capability>, windows: seq<string>, platform: string, plugin: string,
                               command: Command, other: string)
    ensures var e := Compile(policy, windows, platform, plugin, command);
            e.allowedWindows != [] ==>
              (Admits(e.allowedPlatforms, other) <==>
               PlatformAllowed(policy, e.allowedWindows, command.permission, other))
  {
    hide Merge, PlatformLists, AllowedWindows, WindowOrigins, WindowAllowed, PlatformGranted, PlatformAllowed, Concerns;
    var e := Compile(policy, windows, platform, plugin, command);
    if e.allowedWindows != [] {
      AllowedWindowsExact(policy, windows, command.permission, platform);
      PlatformsExact(policy, e.allowedWindows, command.permission, other);
      PlatformIsAllowed(policy, e.allowedWindows, command.permission, other);
      ListedHasPlatform(policy, e.allowedWindows, e.allowedWindows[0], command.permission, platform);
      PlatformListsExact(policy, e.allowedWindows, command.permission);
      assert PlatformLists(policy, e.allowedWindows, command.permission) != [] by {
        GrantedIsListed(policy, e.allowedWindows, command.permission, platform);
      }
    }
  }

  lemma GrantedIsListed(policy: seq<Capability>, windows: seq<string>, permission: Permission, platform: string)
    requires PlatformGranted(policy, windows, permission, platform)
    ensures PlatformLists(policy, windows, permission) != []
  {
    hide PlatformLists, Concerns, Admits;
    PlatformListsExact(policy, windows, permission);
    var k :| 0 <= k < |policy| && Concerns(policy[k], windows, permission) && Admits(policy[k].platforms, platform);
    assert policy[k].platforms in PlatformLists(policy, windows, permission);
  }

  /** On the platform it was compiled for, an entry admits a window and an origin exactly when the window
      is granted, the policy allows the permission there for some origin, and it allows this origin for
      some listed window, though perhaps for another one. */
  lemma EntryExact(policy: seq<Capability>, windows: seq<string>, platform: string, plugin: string, command: Command,
                   window: string, origin: string)
    ensures var e := Compile(policy, windows, platform, plugin, command);
            EntryAllows(e, window, origin, platform) <==>
            && window in windows && WindowAllowed(policy, window, command.permission, platform)
            && AllowedForSome(policy, e.allowedWindows, command.permission, origin, platform)
  {
    hide Merge, PlatformLists, AllowedWindows, WindowOrigins, WindowAllowed, AllowedForSome, PlatformGranted;
    var e := Compile(policy, windows, platform, plugin, command);
    AllowedWindowsExact(policy, windows, command.permission, platform);
    OriginsExact(policy, windows, platform, plugin, command, origin);
    PlatformsExact(policy, e.allowedWindows, command.permission, platform);
    if window in e.allowedWindows {
      ListedHasPlatform(policy, e.allowedWindows, window, command.permission, platform);
    }
  }

  /** On any platform: the window is listed, the origin allowed where the entry was compiled for some listed
      window, and the platform for some listed window. */
  lemma EntryAnywhereExact(policy: seq<Capability>, windows: seq<string>, platform: string, plugin: string,
                           command: Command, window: string, origin: string, other: string)
    ensures var e := Compile(policy, windows, platform, plugin, command);
            EntryAllows(e, window, origin, other) <==>
            && window in e.allowedWindows
            && AllowedForSome(policy, e.allowedWindows, command.permission, origin, platform)
            && PlatformAllowed(policy, e.allowedWindows, command.permission, other)
  {
    hide Merge, PlatformLists, AllowedWindows, WindowOrigins, AllowedForSome, PlatformAllowed;
    OriginsExact(policy, windows, platform, plugin, command, origin);
    AdmittedPlatformsExact(policy, windows, platform, plugin, command, other);
  }

  /** The entry says of every granted window and origin what the policy says. */
  ghost predicate EntryIsPolicy(policy: seq<Capability>, windows: seq<string>, platform: string, plugin: string,
                                command: Command)
  {
    forall window, origin :: window in windows ==>
      (EntryAllows(Compile(policy, windows, platform, plugin, command), window, origin, platform) <==>
       PolicyAllows(policy, Request(window, origin, platform, command.permission)))
  }

  /** All listed windows admit the same origins. */
  ghost predicate SameOrigins(policy: seq<Capability>, listed: seq<string>, permission: Permission, platform: string) {
    forall v, w, origin :: v in listed && w in listed ==>
      (Admits(AllowedOrigins(policy, v, permission, platform), origin) ==>
       Admits(AllowedOrigins(policy, w, permission, platform), origin))
  }

  /** An entry is exact, not only on the safe side, precisely when its windows share their origins. */
  lemma EntryIsPolicyExact(policy: seq<Capability>, windows: seq<string>, platform: string, plugin: string,
                           command: Command)
    ensures EntryIsPolicy(policy, windows, platform, plugin, command) <==>
            SameOrigins(policy, Compile(policy, windows, platform, plugin, command).allowedWindows,
                        command.permission, platform)
  {
    hide Compile, EntryAllows, Admits, PolicyAllows, AllowedOrigins, WindowAllowed;
    var permission := command.permission;
    var e := Compile(policy, windows, platform, plugin, command);
    forall window, origin
      ensures PolicyAllows(policy, Request(window, origin, platform, permission)) <==>
              WindowAllowed(policy, window, permission, platform) &&
                Admits(AllowedOrigins(policy, window, permission, platform), origin)
    {
      AllowedOriginsExact(policy, Request(window, origin, platform, permission));
    }
    forall window ensures window in e.allowedWindows <==>
      window in windows && WindowAllowed(policy, window, permission, platform) {
      CompiledWindows(policy, windows, platform, plugin, command);
    }
    forall window, origin
      ensures EntryAllows(e, window, origin, platform) <==>
              window in e.allowedWindows && AllowedForSome(policy, e.allowedWindows, permission, origin, platform)
    {
      EntryExact(policy, windows, platform, plugin, command, window, origin);
    }
    if EntryIsPolicy(policy, windows, platform, plugin, command) {
      forall v, w, origin | v in e.allowedWindows && w in e.allowedWindows &&
        Admits(AllowedOrigins(policy, v, permission, platform), origin)
        ensures Admits(AllowedOrigins(policy, w, permission, platform), origin)
      {
        var k :| 0 <= k < |e.allowedWindows| && e.allowedWindows[k] == v;
        assert PolicyAllows(policy, Request(e.allowedWindows[k], origin, platform, permission));
        assert EntryAllows(e, w, origin, platform);
      }
    }
    if SameOrigins(policy, e.allowedWindows, permission, platform) {
      forall window, origin | window in windows
        ensures EntryAllows(e, window, origin, platform) <==>
                PolicyAllows(policy, Request(window, origin, platform, permission))
      {
        if EntryAllows(e, window, origin, platform) {
          var k :| 0 <= k < |e.allowedWindows| &&
            PolicyAllows(policy, Request(e.allowedWindows[k], origin, platform, permission));
          assert e.allowedWindows[k] in e.allowedWindows;
        }
        if PolicyAllows(policy, Request(window, origin, platform, permission)) {
          var k :| 0 <= k < |e.allowedWindows| && e.allowedWindows[k] == window;
          assert AllowedForSome(policy, e.allowedWindows, permission, origin, platform);
        }
      }
    }
  }

  lemma CompiledWindows(policy: seq<Capability>, windows: seq<string>, platform: string, plugin: string,
                        command: Command)
    ensures forall w :: w in Compile(policy, windows, platform, plugin, command).allowedWindows <==>
                        w in windows && WindowAllowed(policy, w, command.permission, platform)
  {
    hide AllowedWindows, Merge, WindowAllowed;
    AllowedWindowsExact(policy, windows, command.permission, platform);
  }

  /** Two windows with one origin each: the manifest admits each origin in both. */
  lemma ManifestCanAdmitMore()
    ensures var permission := Permissions.Custom("files.read");
            var policy := [Capability("a", ["main"], ["app://a"], [], [permission], []),
                           Capability("b", ["help"], ["app://b"], [], [permission], [])];
            var e := Compile(policy, ["main", "help"], "linux", "files", Command("read", permission, ""));
            && EntryAllows(e, "main", "app://b", "linux")
            && !PolicyAllows(policy, Request("main", "app://b", "linux", permission))
  {
    hide Compile, EntryAllows;
    var permission := Permissions.Custom("files.read");
    var policy := [Capability("a", ["main"], ["app://a"], [], [permission], []),
                   Capability("b", ["help"], ["app://b"], [], [permission], [])];
    var command := Command("read", permission, "");
    var windows := ["main", "help"];
    assert Grants(policy[1], Request("help", "app://b", "linux", permission));
    assert Applies(policy[0], "main", permission, "linux") && Applies(policy[1], "help", permission, "linux");
    TwoWindows(policy, windows, "files", command);
  }

  lemma TwoWindows(policy: seq<Capability>, windows: seq<string>, plugin: string, command: Command)
    requires |policy| >= 2 && "main" in windows && "help" in windows
    requires WindowAllowed(policy, "main", command.permission, "linux")
    requires PolicyAllows(policy, Request("help", "app://b", "linux", command.permission))
    ensures EntryAllows(Compile(policy, windows, "linux", plugin, command), "main", "app://b", "linux")
  {
    hide Compile, EntryAllows, WindowAllowed, PolicyAllows;
    var e := Compile(policy, windows, "linux", plugin, command);
    CompiledWindows(policy, windows, "linux", plugin, command);
    WindowAllowedExact(policy, "help", command.permission, "linux");
    EntryExact(policy, windows, "linux", plugin, command, "main", "app://b");
    var k :| 0 <= k < |e.allowedWindows| && e.allowedWindows[k] == "help";
    assert AllowedForSome(policy, e.allowedWindows, command.permission, "app://b", "linux");
  }

  // ----- routes -----

  /** The first command that has the route, with its plugin's name. */
  function FirstWith(plugins: seq<Plugin>, route: string): Option<(string, Command)> {
    if plugins == [] then None
    else
      var here := FirstIn(plugins[0].name, plugins[0].commands, route);
      if here.Some? then Some((plugins[0].name, here.value)) else FirstWith(plugins[1..], route)
  }

  function FirstIn(plugin: string, commands: seq<Command>, route: string): Option<Command> {
    if commands == [] then None
    else if Route(plugin, commands[0].name) == route then Some(commands[0])
    else FirstIn(plugin, commands[1..], route)
  }

  lemma {:induction false} FindInCommands(policy: seq<Capability>, windows: seq<string>, platform: string,
                                          plugin: string,
                                          commands: seq<Command>, rest: seq<Entry>, route: string)
    ensures Find(CompileCommands(policy, windows, platform, plugin, commands) + rest, route) ==
            var first := FirstIn(plugin, commands, route);
            if first.Some? then Some(Compile(policy, windows, platform, plugin, first.value)) else Find(rest, route)
    decreases |commands|
  {
    hide Merge, AllowedWindows;
    if commands == [] {
      assert [] + rest == rest;
    } else {
      var more := CompileCommands(policy, windows, platform, plugin, commands[1..]);
      var first := Compile(policy, windows, platform, plugin, commands[0]);
      assert ([first] + more) + rest == [first] + (more + rest);
      assert ([first] + (more + rest))[1..] == more + rest;
      FindInCommands(policy, windows, platform, plugin, commands[1..], rest, route);
    }
  }

  lemma {:induction false} FindExact(plugins: seq<Plugin>, policy: seq<Capability>, windows: seq<string>,
                                     platform: string, route: string)
    ensures Find(FromPlugins(plugins, policy, windows, platform), route) ==
            var first := FirstWith(plugins, route);
            if first.Some? then Some(Compile(policy, windows, platform, first.value.0, first.value.1)) else None
    decreases |plugins|
  {
    hide Compile, CompileCommands, FirstIn;
    if plugins != [] {
      FindInCommands(policy, windows, platform, plugins[0].name, plugins[0].commands,
                     FromPlugins(plugins[1..], policy, windows, platform), route);
      FindExact(plugins[1..], policy, windows, platform, route);
    }
  }

  /** Command `j` of plugin `i` has the route. */
  ghost predicate Declares(plugins: seq<Plugin>, i: nat, j: nat, route: string) {
    i < |plugins| && j < |plugins[i].commands| && Route(plugins[i].name, plugins[i].commands[j].name) == route
  }

  lemma {:induction false} FirstInExact(plugin: string, commands: seq<Command>, route: string)
    ensures FirstIn(plugin, commands, route).None? ==> forall j :: 0 <= j < |commands| ==>
            Route(plugin, commands[j].name) != route
    ensures FirstIn(plugin, commands, route).Some? ==>
              exists j :: 0 <= j < |commands| && commands[j] == FirstIn(plugin, commands, route).value &&
                Route(plugin, commands[j].name) == route
    decreases |commands|
  {
    hide Route;
    if commands != [] {
      var rest := commands[1..];
      FirstInExact(plugin, rest, route);
      assert forall j :: 0 < j < |commands| ==> commands[j] == rest[j - 1];
      if Route(plugin, commands[0].name) != route && FirstIn(plugin, rest, route).Some? {
        var j :| 0 <= j < |rest| && rest[j] == FirstIn(plugin, rest, route).value &&
          Route(plugin, rest[j].name) == route;
        assert commands[j + 1] == rest[j];
      }
    }
  }

  /** A route that one command alone declares leads to that command, and an undeclared one to none. */
  lemma {:induction false} FirstWithExact(plugins: seq<Plugin>, route: string)
    ensures FirstWith(plugins, route).None? ==> forall i: nat, j: nat :: !Declares(plugins, i, j, route)
    ensures FirstWith(plugins, route).Some? ==>
              exists i: nat, j: nat :: Declares(plugins, i, j, route) &&
                FirstWith(plugins, route).value == (plugins[i].name, plugins[i].commands[j])
    decreases |plugins|
  {
    hide Route, FirstIn;
    if plugins != [] {
      var rest := plugins[1..];
      FirstInExact(plugins[0].name, plugins[0].commands, route);
      FirstWithExact(rest, route);
      if FirstIn(plugins[0].name, plugins[0].commands, route).Some? {
        var j :| 0 <= j < |plugins[0].commands| &&
          plugins[0].commands[j] == FirstIn(plugins[0].name, plugins[0].commands, route).value &&
                 Route(plugins[0].name, plugins[0].commands[j].name) == route;
        assert Declares(plugins, 0, j, route);
      } else if FirstWith(rest, route).Some? {
        var i: nat, j: nat :| Declares(rest, i, j, route) &&
          FirstWith(rest, route).value == (rest[i].name, rest[i].commands[j]);
        assert Declares(plugins, i + 1, j, route);
      } else {
        assert forall i: nat, j: nat :: Declares(plugins, i, j, route) && i > 0 ==> Declares(rest, i - 1, j, route);
      }
    }
  }

  /** On its platform the manifest never refuses what the policy allows for the command a route names, in
      any granted window; and it has no entry for a route that names no command. */
  lemma ManifestNeverRefuses(plugins: seq<Plugin>, policy: seq<Capability>, windows: seq<string>, platform: string,
                             route: string, window: string, origin: string)
    ensures var first := FirstWith(plugins, route);
            var entries := FromPlugins(plugins, policy, windows, platform);
            && (first.None? ==> !ManifestAllows(entries, route, window, origin, platform))
            && (first.Some? && window in windows &&
                PolicyAllows(policy, Request(window, origin, platform, first.value.1.permission)) ==>
                  ManifestAllows(entries, route, window, origin, platform))
  {
    hide Compile, FromPlugins, FirstWith, EntryAllows, PolicyAllows, WindowAllowed;
    FindExact(plugins, policy, windows, platform, route);
    var first := FirstWith(plugins, route);
    if && first.Some? && window in windows
       && PolicyAllows(policy, Request(window, origin, platform, first.value.1.permission)) {
      var (plugin, command) := first.value;
      var e := Compile(policy, windows, platform, plugin, command);
      WindowAllowedExact(policy, window, command.permission, platform);
      CompiledWindows(policy, windows, platform, plugin, command);
      EntryExact(policy, windows, platform, plugin, command, window, origin);
      var k :| 0 <= k < |e.allowedWindows| && e.allowedWindows[k] == window;
      assert AllowedForSome(policy, e.allowedWindows, command.permission, origin, platform);
    }
  }

  /** One plugin name is the other with a dot and more behind it. */
  predicate Extends(plugin: string, other: string) {
    |plugin| > |other| && plugin[..|other|] == other && plugin[|other|] == '.'
  }

  /** Plugins of which neither name extends the other never share a route. */
  lemma RoutesDiffer(plugin: string, command: string, other: string, otherCommand: string)
    requires !Extends(plugin, other) && !Extends(other, plugin)
    ensures Route(plugin, command) == Route(other, otherCommand) <==> plugin == other && command == otherCommand
  {
    var r, s := Route(plugin, command), Route(other, otherCommand);
    assert r[..|plugin|] == plugin && s[..|other|] == other && r[|plugin|] == '.' && s[|other|] == '.';
    assert |other| < |plugin| ==> r[..|other|] == plugin[..|other|] && r[|other|] == plugin[|other|];
    assert |plugin| < |other| ==> s[..|plugin|] == other[..|plugin|] && s[|plugin|] == other[|plugin|];
    assert command == r[|plugin| + 1..] && otherCommand == s[|other| + 1..];
  }

  /** Two plugins can share a route, with some commands, exactly when they have one name or the name of
      one extends the other's. */
  lemma SharedRouteExact(plugin: string, other: string)
    ensures (exists c, d :: Route(plugin, c) == Route(other, d)) <==>
            plugin == other || Extends(plugin, other) || Extends(other, plugin)
  {
    hide Route;
    if plugin == other {
      assert Route(plugin, "") == Route(other, "");
    } else if Extends(plugin, other) {
      ExtendedRoute(plugin, other);
    } else if Extends(other, plugin) {
      ExtendedRoute(other, plugin);
    } else {
      forall c, d ensures Route(plugin, c) != Route(other, d) {
        RoutesDiffer(plugin, c, other, d);
      }
    }
  }

  lemma ExtendedRoute(plugin: string, other: string)
    requires Extends(plugin, other)
    ensures Route(plugin, "") == Route(other, plugin[|other| + 1..] + ".")
  {
    assert plugin == other + "." + plugin[|other| + 1..];
  }

  /** No two declared commands have one route. */
  ghost predicate Unambiguous(plugins: seq<Plugin>) {
    forall i: nat, j: nat, k: nat, l: nat, route ::
      Declares(plugins, i, j, route) && Declares(plugins, k, l, route) ==> i == k && j == l
  }

  /** Names of which none equals or extends another, and different command names in each plugin, keep all
      routes apart. */
  lemma NamesKeepRoutesApart(plugins: seq<Plugin>)
    requires forall i, k :: 0 <= i < |plugins| && 0 <= k < |plugins| && i != k ==>
               plugins[i].name != plugins[k].name && !Extends(plugins[i].name, plugins[k].name)
    requires forall i, j, l :: 0 <= i < |plugins| && 0 <= j < l < |plugins[i].commands| ==>
               plugins[i].commands[j].name != plugins[i].commands[l].name
    ensures Unambiguous(plugins)
  {
    hide Route;
    forall i: nat, j: nat, k: nat, l: nat, route | Declares(plugins, i, j, route) && Declares(plugins, k, l, route)
      ensures i == k && j == l
    {
      var a, b := plugins[i].commands[j].name, plugins[k].commands[l].name;
      assert !Extends(plugins[i].name, plugins[i].name);
      RoutesDiffer(plugins[i].name, a, plugins[k].name, b);
    }
  }

  /** With unambiguous routes every declared command, not only the first, is found and never refused what
      the policy allows. */
  lemma EveryCommandNeverRefused(plugins: seq<Plugin>, policy: seq<Capability>, windows: seq<string>, platform: string,
                                 i: nat, j: nat, window: string, origin: string)
    requires Unambiguous(plugins) && i < |plugins| && j < |plugins[i].commands|
    ensures var command := plugins[i].commands[j];
            var route := Route(plugins[i].name, command.name);
            && FirstWith(plugins, route) == Some((plugins[i].name, command))
            && (window in windows && PolicyAllows(policy, Request(window, origin, platform, command.permission)) ==>
                  ManifestAllows(FromPlugins(plugins, policy, windows, platform), route, window, origin, platform))
  {
    hide Route, FirstWith, FromPlugins, ManifestAllows, PolicyAllows;
    var route := Route(plugins[i].name, plugins[i].commands[j].name);
    assert Declares(plugins, i, j, route);
    FirstWithExact(plugins, route);
    var k: nat, l: nat :| Declares(plugins, k, l, route) &&
      FirstWith(plugins, route).value == (plugins[k].name, plugins[k].commands[l]);
    assert k == i && l == j;
    ManifestNeverRefuses(plugins, policy, windows, platform, route, window, origin);
  }

  lemma DottedPluginsShareRoutes()
    ensures Route("a.b", "c") == Route("a", "b.c")
  {
    assert Route("a.b", "c") == "a.b.c";
  }

  // ----- the loops -----

  method CommandAllowedOrigins(policy: seq<Capability>, windows: seq<string>, permission: Permission, platform: string)
    returns (origins: seq<string>)
    ensures origins == Merge([], WindowOrigins(policy, windows, permission, platform))
  {
    hide AddAllOnce, AllowedOrigins;
    origins := [];
    for k := 0 to |windows|
      invariant Merge(origins, WindowOrigins(policy, windows[k..], permission, platform)) ==
                Merge([], WindowOrigins(policy, windows, permission, platform))
    {
      assert windows[k..][1..] == windows[k + 1..];
      var windowOrigins := CollectOrigins(policy, windows[k], permission, platform);
      ghost var rest := WindowOrigins(policy, windows[k + 1..], permission, platform);
      assert ([windowOrigins] + rest)[1..] == rest;
      if windowOrigins == [] {
        return [];
      }
      origins := AddEach(origins, windowOrigins);
    }
  }

  method AppliesToWindows(c: Capability, windows: seq<string>) returns (r: bool)
    ensures r <==> AppliesToAny(c, windows)
  {
    if c.windows == [] {
      return true;
    }
    for k := 0 to |windows|
      invariant forall j :: 0 <= j < k ==> windows[j] !in c.windows
    {
      if windows[k] in c.windows {
        return true;
      }
    }
    return false;
  }

  method CommandAllowedPlatforms(policy: seq<Capability>, windows: seq<string>, permission: Permission)
    returns (platforms: seq<string>)
    ensures platforms == Merge([], PlatformLists(policy, windows, permission))
  {
    hide AddAllOnce, AppliesToAny;
    platforms := [];
    for k := 0 to |policy|
      invariant Merge(platforms, PlatformLists(policy[k..], windows, permission)) ==
                Merge([], PlatformLists(policy, windows, permission))
    {
      assert policy[k..][1..] == policy[k + 1..];
      ghost var rest := PlatformLists(policy[k + 1..], windows, permission);
      var applies := AppliesToWindows(policy[k], windows);
      if permission in policy[k].permissions && applies {
        assert ([policy[k].platforms] + rest)[1..] == rest;
        if policy[k].platforms == [] {
          return [];
        }
        platforms := AddEach(platforms, policy[k].platforms);
      } else {
        assert [] + rest == rest;
      }
    }
  }

  /** One unfolding of the list of windows. */
  lemma WindowsStep(policy: seq<Capability>, windows: seq<string>, k: nat, permission: Permission, platform: string)
    requires k < |windows|
    ensures var rest := AllowedWindows(policy, windows[k + 1..], permission, platform);
            AllowedWindows(policy, windows[k..], permission, platform) ==
            if WindowAllowed(policy, windows[k], permission, platform) then [windows[k]] + rest else rest
  {
    hide Applies;
    assert windows[k..][1..] == windows[k + 1..];
  }

  method ListWindows(policy: seq<Capability>, windows: seq<string>, permission: Permission, platform: string)
    returns (allowed: seq<string>)
    ensures allowed == AllowedWindows(policy, windows, permission, platform)
  {
    hide AllowedWindows, WindowAllowed;
    allowed := [];
    ghost var all := AllowedWindows(policy, windows, permission, platform);
    assert windows[0..] == windows && [] + all == all;
    for k := 0 to |windows|
      invariant all == allowed + AllowedWindows(policy, windows[k..], permission, platform)
    {
      WindowsStep(policy, windows, k, permission, platform);
      var listed := AllowsWindow(policy, windows[k], permission, platform);
      if listed {
        allowed := allowed + [windows[k]];
      }
    }
    assert windows[|windows|..] == [] && allowed + [] == allowed;
    assert AllowedWindows(policy, [], permission, platform) == [] by { NoWindows(policy, permission, platform); }
  }

  lemma NoWindows(policy: seq<Capability>, permission: Permission, platform: string)
    ensures AllowedWindows(policy, [], permission, platform) == []
  {}

  method CompileEntry(policy: seq<Capability>, windows: seq<string>, platform: string, plugin: string, command: Command)
    returns (e: Entry)
    ensures e == Compile(policy, windows, platform, plugin, command)
  {
    hide Merge, WindowOrigins, PlatformLists, AllowedWindows;
    var allowed := ListWindows(policy, windows, command.permission, platform);
    var origins := CommandAllowedOrigins(policy, allowed, command.permission, platform);
    var platforms := CommandAllowedPlatforms(policy, allowed, command.permission);
    return Entry(plugin, command, Route(plugin, command.name), allowed, origins, platforms);
  }

  method CompilePlugin(plugin: Plugin, policy: seq<Capability>, windows: seq<string>, platform: string)
    returns (entries: seq<Entry>)
    ensures entries == CompileCommands(policy, windows, platform, plugin.name, plugin.commands)
  {
    hide Compile;
    var commands := plugin.commands;
    entries := [];
    for c := 0 to |commands|
      invariant CompileCommands(policy, windows, platform, plugin.name, commands) ==
                entries + CompileCommands(policy, windows, platform, plugin.name, commands[c..])
    {
      assert commands[c..][1..] == commands[c + 1..];
      var entry := CompileEntry(policy, windows, platform, plugin.name, commands[c]);
      entries := entries + [entry];
    }
    assert entries + [] == entries;
  }

  method CompileManifest(plugins: seq<Plugin>, policy: seq<Capability>, windows: seq<string>, platform: string)
    returns (entries: seq<Entry>)
    ensures entries == FromPlugins(plugins, policy, windows, platform)
  {
    hide Compile, CompileCommands;
    entries := [];
    for p := 0 to |plugins|
      invariant FromPlugins(plugins, policy, windows, platform) == entries +
                FromPlugins(plugins[p..], policy, windows, platform)
    {
      assert plugins[p..][1..] == plugins[p + 1..];
      var compiled := CompilePlugin(plugins[p], policy, windows, platform);
      entries := entries + compiled;
    }
    assert entries + [] == entries;
  }

  method Allows(entries: seq<Entry>, route: string, window: string, origin: string, platform: string) returns (r: bool)
    ensures r <==> ManifestAllows(entries, route, window, origin, platform)
  {
    hide EntryAllows;
    for k := 0 to |entries|
      invariant Find(entries, route) == Find(entries[k..], route)
    {
      assert entries[k..][1..] == entries[k + 1..];
      if entries[k].route == route {
        return EntryAllows(entries[k], window, origin, platform);
      }
    }
    return false;
  }
}
