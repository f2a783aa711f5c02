/** The capability policy: which windows, origins and platforms a permission is granted to. */
module Policy {
  import opened IdLists
  import opened Permissions
  import opened Scopes

  datatype Capability = Capability(
    name: string, windows: seq<string>, origins: seq<string>, platforms: seq<string>,
    permissions: seq<Permission>, operationScopes: seq<OperationScope>)

  /** What is asked for: a permission, from a window showing an origin, on a platform. */
  datatype Request = Request(window: string, origin: string, platform: string, permission: Permission)

  datatype Decision = Decision(allowed: bool, request: Request, capability: string, reason: string)

  /** An empty list admits everything. */
  predicate Admits(list: seq<string>, x: string) {
    list == [] || x in list
  }

  /** The capability is about this window, platform and permission, whatever the origin. */
  predicate Applies(c: Capability, window: string, permission: Permission, platform: string) {
    Admits(c.windows, window) && Admits(c.platforms, platform) && permission in c.permissions
  }

  predicate Grants(c: Capability, request: Request) {
    && Admits(c.windows, request.window) && Admits(c.origins, request.origin) && Admits(c.platforms, request.platform)
    && request.permission in c.permissions
  }

  ghost predicate ScopeAllowed(scopes: seq<OperationScope>, scope: OperationScope) {
    exists k :: 0 <= k < |scopes| && Allows(scopes[k], scope)
  }

  ghost predicate GrantsOperation(c: Capability, request: Request, scope: OperationScope) {
    Grants(c, request) && ScopeAllowed(c.operationScopes, scope)
  }

  /** Some capability of the policy grants the request. */
  ghost predicate PolicyAllows(policy: seq<Capability>, request: Request) {
    exists k :: 0 <= k < |policy| && Grants(policy[k], request)
  }

  ghost predicate PolicyAllowsOperation(policy: seq<Capability>, request: Request, scope: OperationScope) {
    exists k :: 0 <= k < |policy| && GrantsOperation(policy[k], request, scope)
  }

  function KindName(kind: Kind): string {
    match kind
    case PathOperation => "path"
    case ShellOperation => "shell"
    case UrlOperation => "url"
  }

  function Place(request: Request): string {
    request.window + (if request.origin == "" then "" else " origin " + request.origin) +
    (if request.platform == "" then "" else " platform " + request.platform)
  }

  function PermissionReason(request: Request): string {
    "permission denied for window " + Place(request) + ": " + Name(request.permission)
  }

  function ScopeReason(request: Request, scope: OperationScope): string {
    "operation scope denied for window " + Place(request) + ": " + Name(request.permission) +
    " " + KindName(scope.kind) + ":" + scope.value
  }

  // ----- evaluation -----

  /** Capability `k` is the first that grants the request. */
  ghost predicate FirstGranting(policy: seq<Capability>, request: Request, k: nat) {
    k < |policy| && Grants(policy[k], request) && forall j :: 0 <= j < k ==> !Grants(policy[j], request)
  }

  ghost predicate FirstAllowing(policy: seq<Capability>, request: Request, scope: OperationScope, k: nat) {
    && k < |policy| && GrantsOperation(policy[k], request, scope)
    && forall j :: 0 <= j < k ==> !GrantsOperation(policy[j], request, scope)
  }

  /** The first capability that grants the request decides. */
  method Evaluate(policy: seq<Capability>, request: Request) returns (d: Decision)
    ensures d.request == request
    ensures d.allowed <==> PolicyAllows(policy, request)
    ensures d.allowed ==> exists k: nat :: FirstGranting(policy, request, k) && d.capability == policy[k].name
    ensures d.allowed ==> d.reason == ""
    ensures !d.allowed ==> d.capability == "" && d.reason == PermissionReason(request)
  {
    hide Grants, PermissionReason;
    for k := 0 to |policy|
      invariant forall j :: 0 <= j < k ==> !Grants(policy[j], request)
    {
      if Grants(policy[k], request) {
        assert FirstGranting(policy, request, k);
        return Decision(true, request, policy[k].name, "");
      }
    }
    return Decision(false, request, "", PermissionReason(request));
  }

  method AnyScopeAllows(scopes: seq<OperationScope>, scope: OperationScope) returns (r: bool)
    ensures r <==> ScopeAllowed(scopes, scope)
  {
    hide Allows;
    for k := 0 to |scopes|
      invariant forall j :: 0 <= j < k ==> !Allows(scopes[j], scope)
    {
      if Allows(scopes[k], scope) {
        return true;
      }
    }
    return false;
  }

  /** A refusal says whether the permission or only the scope was missing. */
  method EvaluateOperation(policy: seq<Capability>, request: Request, scope: OperationScope) returns (d: Decision)
    ensures d.request == request
    ensures d.allowed <==> PolicyAllowsOperation(policy, request, scope)
    ensures d.allowed ==> exists k: nat :: FirstAllowing(policy, request, scope, k) && d.capability == policy[k].name
    ensures d.allowed ==> d.reason == ""
    ensures !d.allowed ==> d.capability == ""
    ensures !d.allowed && PolicyAllows(policy, request) ==> d.reason == ScopeReason(request, scope)
    ensures !d.allowed && !PolicyAllows(policy, request) ==> d.reason == PermissionReason(request)
  {
    hide Grants, PermissionReason, ScopeReason, ScopeAllowed;
    var grantAllowed := false;
    for k := 0 to |policy|
      invariant grantAllowed <==> exists j :: 0 <= j < k && Grants(policy[j], request)
      invariant forall j :: 0 <= j < k ==> !GrantsOperation(policy[j], request, scope)
    {
      if Grants(policy[k], request) {
        grantAllowed := true;
        var inScope := AnyScopeAllows(policy[k].operationScopes, scope);
        if inScope {
          assert FirstAllowing(policy, request, scope, k);
          return Decision(true, request, policy[k].name, "");
        }
      }
    }
    var reason := if grantAllowed then ScopeReason(request, scope) else PermissionReason(request);
    return Decision(false, request, "", reason);
  }

  // ----- in terms of the lists alone -----

  /** A request meets an entry of the policy: the permission is listed, and window, origin and platform are
      listed too, or their lists are empty. */
  ghost predicate Meets(c: Capability, request: Request) {
    && request.permission in c.permissions
    && (c.windows != [] ==> request.window in c.windows)
    && (c.origins != [] ==> request.origin in c.origins)
    && (c.platforms != [] ==> request.platform in c.platforms)
  }

  lemma PolicyAllowsExact(policy: seq<Capability>, request: Request)
    ensures PolicyAllows(policy, request) <==> exists c :: c in policy && Meets(c, request)
  {
    if c :| c in policy && Meets(c, request) {
      var k :| 0 <= k < |policy| && policy[k] == c;
      assert Grants(policy[k], request);
    }
    if k :| 0 <= k < |policy| && Grants(policy[k], request) {
      assert Meets(policy[k], request);
    }
  }

  /** A shell or URL operation is allowed exactly when an entry that meets the request lists that very scope;
      a path operation when such an entry lists a scope, for writing if need be, of a path it continues. */
  lemma OperationAllowsExact(policy: seq<Capability>, request: Request, scope: OperationScope)
    ensures scope.kind != PathOperation ==>
              (PolicyAllowsOperation(policy, request, scope) <==>
               exists c, s :: c in policy && Meets(c, request) && s in c.operationScopes &&
                 s.kind == scope.kind && s.value == scope.value)
    ensures scope.kind == PathOperation ==>
              (PolicyAllowsOperation(policy, request, scope) <==>
               exists c, s :: c in policy && Meets(c, request) && s in c.operationScopes &&
                 s.kind == PathOperation && (scope.writable ==> s.writable) &&
                 Continues(Normalize(s.value), Normalize(scope.value)))
  {
    hide Allows, Continues, Normalize;
    forall s ensures Allows(s, scope) <==>
      if scope.kind != PathOperation then s.kind == scope.kind && s.value == scope.value
      else s.kind == PathOperation && (scope.writable ==> s.writable)
           && Continues(Normalize(s.value), Normalize(scope.value)) {
      AllowsExact(s, scope);
    }
    if k :| 0 <= k < |policy| && GrantsOperation(policy[k], request, scope) {
      var i :| 0 <= i < |policy[k].operationScopes| && Allows(policy[k].operationScopes[i], scope);
      assert policy[k] in policy && Meets(policy[k], request) &&
             policy[k].operationScopes[i] in policy[k].operationScopes;
    }
    if c, s :| c in policy && Meets(c, request) && s in c.operationScopes && Allows(s, scope) {
      var k :| 0 <= k < |policy| && policy[k] == c;
      var i :| 0 <= i < |c.operationScopes| && c.operationScopes[i] == s;
      assert GrantsOperation(policy[k], request, scope);
    }
  }

  /** The reasons of a refusal, as they read. */
  lemma ReasonsRead(request: Request, scope: OperationScope)
    requires request == Request("w", "o", "p", Shell) && scope == OperationScope(ShellOperation, "git", false)
    ensures PermissionReason(request) == "permission denied for window " + "w origin o platform p" + ": shell"
    ensures ScopeReason(request, scope) ==
            "operation scope denied for window " + "w origin o platform p" + ": shell shell:git"
    ensures PermissionReason(request.(origin := "", platform := "")) == "permission denied for window " + "w" +
            ": shell"
  {
    PlaceReads();
    assert ": " + "shell" == ": shell" && ": shell" + (" " + ("shell" + (":" + "git"))) == ": shell shell:git";
    hide Place;
  }

  lemma PlaceReads()
    ensures Place(Request("w", "o", "p", Shell)) == "w origin o platform p" && Place(Request("w", "", "", Shell)) == "w"
  {
    assert "w" + (" origin " + "o") == "w origin o" && " platform " + "p" == " platform p";
    assert "w origin o" + " platform p" == "w origin o platform p" && "w" + "" + "" == "w";
  }

  /** What is allowed for a scope is allowed for every scope inside it. */
  lemma NarrowerIsAllowed(policy: seq<Capability>, request: Request, scope: OperationScope, narrower: OperationScope)
    requires PolicyAllowsOperation(policy, request, scope) && Allows(scope, narrower)
    ensures PolicyAllowsOperation(policy, request, narrower)
  {
    hide Allows, Grants;
    var k :| 0 <= k < |policy| && GrantsOperation(policy[k], request, scope);
    var i :| 0 <= i < |policy[k].operationScopes| && Allows(policy[k].operationScopes[i], scope);
    AllowsIsPreorder(policy[k].operationScopes[i], scope, narrower);
    assert GrantsOperation(policy[k], request, narrower);
  }

  function Widened(c: Capability, roots: seq<FileSystemScope>): Capability {
    c.(operationScopes := Widen(c.operationScopes, roots, FileSystemRead in c.permissions,
                                FileSystemWrite in c.permissions))
  }

  /** The path lies inside one of the roots, as far as the capability's permissions reach. */
  ghost predicate InsideRoots(c: Capability, roots: seq<FileSystemScope>, scope: OperationScope) {
    exists k :: 0 <= k < |roots| &&
      RootAllows(roots[k], FileSystemRead in c.permissions, FileSystemWrite in c.permissions, scope)
  }

  /** Adding the filesystem roots to a capability changes which operations it grants by exactly the paths
      inside those roots. */
  lemma WideningExact(c: Capability, roots: seq<FileSystemScope>, request: Request, scope: OperationScope)
    ensures GrantsOperation(Widened(c, roots), request, scope) <==>
            GrantsOperation(c, request, scope) || (Grants(c, request) && InsideRoots(c, roots, scope))
  {
    hide Allows, Inside, Widen;
    var read, write := FileSystemRead in c.permissions, FileSystemWrite in c.permissions;
    WidenedAllowsExact(c.operationScopes, roots, read, write, scope);
    AllowedByMember(c.operationScopes, scope);
    AllowedByMember(Widen(c.operationScopes, roots, read, write), scope);
  }

  lemma AllowedByMember(scopes: seq<OperationScope>, scope: OperationScope)
    ensures ScopeAllowed(scopes, scope) <==> exists s :: s in scopes && Allows(s, scope)
  {
    hide Allows;
    if s :| s in scopes && Allows(s, scope) {
      var k :| 0 <= k < |scopes| && scopes[k] == s;
    }
  }

  // ----- lists of origins -----

  function AddOnce(list: seq<string>, x: string): seq<string> {
    if x in list then list else list + [x]
  }

  function AddAllOnce(list: seq<string>, more: seq<string>): seq<string>
    decreases |more|
  {
    if more == [] then list else AddAllOnce(AddOnce(list, more[0]), more[1..])
  }

  /** The lists one after another, each string once; but one empty list makes the result empty. */
  function Merge(list: seq<string>, lists: seq<seq<string>>): seq<string>
    decreases |lists|
  {
    if lists == [] then list
    else if lists[0] == [] then []
    else Merge(AddAllOnce(list, lists[0]), lists[1..])
  }

  lemma {:induction false} AddAllOnceExact(list: seq<string>, more: seq<string>)
    ensures forall x :: x in AddAllOnce(list, more) <==> x in list || x in more
    ensures NoDuplicates(list) ==> NoDuplicates(AddAllOnce(list, more))
    decreases |more|
  {
    if more != [] {
      AddAllOnceExact(AddOnce(list, more[0]), more[1..]);
      assert more == [more[0]] + more[1..];
    }
  }

  lemma {:induction false} MergeFrom(list: seq<string>, lists: seq<seq<string>>)
    ensures [] in lists ==> Merge(list, lists) == []
    ensures [] !in lists ==> forall x :: x in Merge(list, lists) <==>
            x in list || exists k :: 0 <= k < |lists| && x in lists[k]
    ensures NoDuplicates(list) ==> NoDuplicates(Merge(list, lists))
    decreases |lists|
  {
    hide AddAllOnce;
    if lists != [] {
      assert lists == [lists[0]] + lists[1..];
      var more := AddAllOnce(list, lists[0]);
      AddAllOnceExact(list, lists[0]);
      MergeFrom(more, lists[1..]);
      if [] !in lists {
        forall x ensures x in Merge(list, lists) <==> x in list || exists k :: 0 <= k < |lists| && x in lists[k] {
          if k :| 0 <= k < |lists[1..]| && x in lists[1..][k] {
            assert x in lists[k + 1];
          }
          if k :| 0 <= k < |lists| && x in lists[k] {
            assert k > 0 ==> x in lists[1..][k - 1];
          }
        }
      } else if lists[0] != [] {
        assert [] in lists[1..];
      }
    }
  }

  /** Read as what they admit, merged lists admit exactly what one of them admits; only for no list at
      all does the merged list admit everything although none of them does. */
  lemma MergeAdmits(lists: seq<seq<string>>, x: string)
    ensures Admits(Merge([], lists), x) <==> lists == [] || exists k :: 0 <= k < |lists| && Admits(lists[k], x)
    ensures NoDuplicates(Merge([], lists))
  {
    hide Merge;
    MergeFrom([], lists);
    if [] in lists {
      var k :| 0 <= k < |lists| && lists[k] == [];
      assert Admits(lists[k], x);
    } else if lists == [] {
      assert Merge([], lists) == [] by { MergeNothing(); }
    } else {
      assert lists[0] in lists && lists[0][0] in Merge([], lists);
    }
  }

  lemma MergeNothing()
    ensures Merge([], []) == []
  {}

  /** The origin lists of the capabilities that apply. */
  function OriginLists(policy: seq<Capability>, window: string, permission: Permission,
                       platform: string): seq<seq<string>>
  {
    if policy == [] then []
    else (if Applies(policy[0], window, permission, platform) then [policy[0].origins] else []) +
         OriginLists(policy[1..], window, permission, platform)
  }

  function AllowedOrigins(policy: seq<Capability>, window: string, permission: Permission,
                          platform: string): seq<string>
  {
    Merge([], OriginLists(policy, window, permission, platform))
  }

  ghost predicate WindowAllowed(policy: seq<Capability>, window: string, permission: Permission, platform: string) {
    exists k :: 0 <= k < |policy| && Applies(policy[k], window, permission, platform)
  }

  lemma {:induction false} OriginListsExact(policy: seq<Capability>, window: string, permission: Permission,
                                            platform: string)
    ensures forall l :: l in OriginLists(policy, window, permission, platform) <==>
              exists k :: 0 <= k < |policy| && Applies(policy[k], window, permission, platform) &&
                policy[k].origins == l
    decreases |policy|
  {
    hide Applies;
    if policy != [] {
      var rest := policy[1..];
      OriginListsExact(rest, window, permission, platform);
      forall l ensures l in OriginLists(policy, window, permission, platform) <==>
                       exists k :: 0 <= k < |policy| && Applies(policy[k], window, permission, platform) &&
                         policy[k].origins == l {
        if k :| 0 <= k < |rest| && Applies(rest[k], window, permission, platform) && rest[k].origins == l {
          assert policy[k + 1] == rest[k];
        }
        if k :| 0 <= k < |policy| && Applies(policy[k], window, permission, platform) && policy[k].origins == l {
          assert k > 0 ==> rest[k - 1] == policy[k];
        }
      }
    }
  }

  /** The list of origins compiled for a window says of every origin what the policy says, as long as the
      window has the permission at all. */
  lemma AllowedOriginsExact(policy: seq<Capability>, request: Request)
    ensures var listed := AllowedOrigins(policy, request.window, request.permission, request.platform);
            PolicyAllows(policy, request) <==>
            WindowAllowed(policy, request.window, request.permission, request.platform) &&
              Admits(listed, request.origin)
  {
    hide Merge, OriginLists, Admits;
    var lists := OriginLists(policy, request.window, request.permission, request.platform);
    OriginListsExact(policy, request.window, request.permission, request.platform);
    MergeAdmits(lists, request.origin);
    forall k | 0 <= k < |policy| ensures Grants(policy[k], request) <==>
      Applies(policy[k], request.window, request.permission, request.platform) &&
        Admits(policy[k].origins, request.origin) {}
    if PolicyAllows(policy, request) {
      var k :| 0 <= k < |policy| && Grants(policy[k], request);
      assert policy[k].origins in lists;
    }
    if WindowAllowed(policy, request.window, request.permission, request.platform) {
      var k :| 0 <= k < |policy| && Applies(policy[k], request.window, request.permission, request.platform);
      assert policy[k].origins in lists;
      if i :| 0 <= i < |lists| && Admits(lists[i], request.origin) {
        assert lists[i] in lists;
        var j :| 0 <= j < |policy| && Applies(policy[j], request.window, request.permission, request.platform) &&
          policy[j].origins == lists[i];
        assert Grants(policy[j], request);
      }
    }
  }

  /** A window has a permission exactly when the policy allows it there for some origin. */
  lemma WindowAllowedExact(policy: seq<Capability>, window: string, permission: Permission, platform: string)
    ensures WindowAllowed(policy, window, permission, platform) <==>
            exists origin :: PolicyAllows(policy, Request(window, origin, platform, permission))
  {
    if WindowAllowed(policy, window, permission, platform) {
      var k :| 0 <= k < |policy| && Applies(policy[k], window, permission, platform);
      var origin := if policy[k].origins == [] then "" else policy[k].origins[0];
      assert Grants(policy[k], Request(window, origin, platform, permission));
      assert PolicyAllows(policy, Request(window, origin, platform, permission));
    }
    if origin :| PolicyAllows(policy, Request(window, origin, platform, permission)) {
      var k :| 0 <= k < |policy| && Grants(policy[k], Request(window, origin, platform, permission));
      assert Applies(policy[k], window, permission, platform);
    }
  }

  // ----- the loops -----

  method AllowsWindow(policy: seq<Capability>, window: string, permission: Permission,
                      platform: string) returns (r: bool)
    ensures r <==> WindowAllowed(policy, window, permission, platform)
  {
    hide Admits;
    for k := 0 to |policy|
      invariant forall j :: 0 <= j < k ==> !Applies(policy[j], window, permission, platform)
    {
      var windowAllowed := Admits(policy[k].windows, window);
      var platformAllowed := Admits(policy[k].platforms, platform);
      if windowAllowed && platformAllowed && permission in policy[k].permissions {
        return true;
      }
    }
    return false;
  }

  method AddEach(list: seq<string>, more: seq<string>) returns (r: seq<string>)
    ensures r == AddAllOnce(list, more)
  {
    r := list;
    for k := 0 to |more|
      invariant AddAllOnce(r, more[k..]) == AddAllOnce(list, more)
    {
      assert more[k..][1..] == more[k + 1..];
      if more[k] !in r {
        r := r + [more[k]];
      }
    }
  }

  method CollectOrigins(policy: seq<Capability>, window: string, permission: Permission, platform: string)
    returns (origins: seq<string>)
    ensures origins == AllowedOrigins(policy, window, permission, platform)
  {
    hide Admits, AddAllOnce;
    origins := [];
    for k := 0 to |policy|
      invariant Merge(origins, OriginLists(policy[k..], window, permission, platform)) ==
                AllowedOrigins(policy, window, permission, platform)
    {
      assert policy[k..][1..] == policy[k + 1..];
      ghost var rest := OriginLists(policy[k + 1..], window, permission, platform);
      if Admits(policy[k].windows, window) && Admits(policy[k].platforms, platform) &&
         permission in policy[k].permissions {
        assert ([policy[k].origins] + rest)[1..] == rest;
        if policy[k].origins == [] {
          return [];
        }
        origins := AddEach(origins, policy[k].origins);
      } else {
        assert [] + rest == rest;
      }
    }
  }
}
