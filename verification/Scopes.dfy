/** Operation scopes: what one scope allows, and widening a scope list by the filesystem roots. */
module Scopes {
  datatype Kind = PathOperation | ShellOperation | UrlOperation

  datatype OperationScope = OperationScope(kind: Kind, value: string, writable: bool)

  datatype FileSystemScope = FileSystemScope(root: string, writable: bool)

  predicate IsSeparator(c: char) {
    c == '/' || c == '\\'
  }

  function TrimEnd(path: string): string {
    if path != "" && IsSeparator(path[|path| - 1]) then TrimEnd(path[..|path| - 1]) else path
  }

  /** Trailing separators do not matter, unless the path has nothing else. */
  function Normalize(path: string): string {
    if TrimEnd(path) == "" then path else TrimEnd(path)
  }

  predicate HasPrefix(s: string, prefix: string) {
    |prefix| <= |s| && s[..|prefix|] == prefix
  }

  predicate Inside(root: string, target: string) {
    var r, t := Normalize(root), Normalize(target);
    t == r || HasPrefix(t, r + "/") || HasPrefix(t, r + "\\")
  }

  predicate Allows(scope: OperationScope, requested: OperationScope) {
    scope.kind == requested.kind &&
    match scope.kind
    case PathOperation => (!requested.writable || scope.writable) && Inside(scope.value, requested.value)
    case ShellOperation => scope.value == requested.value
    case UrlOperation => scope.value == requested.value
  }

  // ----- the order on scopes -----

  /** `t` continues `r`, and does so with a separator. */
  ghost predicate Continues(r: string, t: string) {
    r <= t && (|t| > |r| ==> IsSeparator(t[|r|]))
  }

  lemma InsideExact(root: string, target: string)
    ensures Inside(root, target) <==> Continues(Normalize(root), Normalize(target))
  {
    hide Normalize;
    var r, t := Normalize(root), Normalize(target);
    assert r <= t && |t| == |r| ==> t == r;
    if r <= t && |t| > |r| {
      assert t[..|r| + 1] == r + [t[|r|]];
    }
    if HasPrefix(t, r + "/") {
      assert t[..|r|] == (r + "/")[..|r|] == r && t[|r|] == (r + "/")[|r|];
    }
    if HasPrefix(t, r + "\\") {
      assert t[..|r|] == (r + "\\")[..|r|] == r && t[|r|] == (r + "\\")[|r|];
    }
  }

  /** Shell commands and URLs are allowed only as they are written; a path with everything inside it, for
      writing only by a scope for writing. */
  lemma AllowsExact(a: OperationScope, b: OperationScope)
    ensures a.kind != PathOperation ==> (Allows(a, b) <==> a.kind == b.kind && a.value == b.value)
    ensures a.kind == PathOperation ==>
              (Allows(a, b) <==> && b.kind == PathOperation && (b.writable ==> a.writable)
                                 && Continues(Normalize(a.value), Normalize(b.value)))
  {
    hide Inside, Normalize;
    InsideExact(a.value, b.value);
  }

  /** Allowing is reflexive and transitive. */
  lemma AllowsIsPreorder(a: OperationScope, b: OperationScope, c: OperationScope)
    ensures Allows(a, a)
    ensures Allows(a, b) && Allows(b, c) ==> Allows(a, c)
  {
    hide Inside, Normalize;
    InsideExact(a.value, a.value);
    InsideExact(a.value, b.value);
    InsideExact(b.value, c.value);
    InsideExact(a.value, c.value);
  }

  /** Two scopes allow each other exactly when they name the same thing. */
  lemma MutualAllowanceExact(a: OperationScope, b: OperationScope)
    ensures Allows(a, b) && Allows(b, a) <==>
              && a.kind == b.kind
              && (a.kind != PathOperation ==> a.value == b.value)
              && (a.kind == PathOperation ==> Normalize(a.value) == Normalize(b.value) && a.writable == b.writable)
  {
    hide Inside, Normalize;
    InsideExact(a.value, b.value);
    InsideExact(b.value, a.value);
  }

  // ----- what lies inside a path -----

  predicate OnlySeparators(s: string) {
    forall i :: 0 <= i < |s| ==> IsSeparator(s[i])
  }

  lemma {:induction false} TrimExact(path: string)
    ensures TrimEnd(path) <= path && OnlySeparators(path[|TrimEnd(path)|..])
    ensures TrimEnd(path) != "" ==> !IsSeparator(TrimEnd(path)[|TrimEnd(path)| - 1])
    decreases |path|
  {
    if path != "" && IsSeparator(path[|path| - 1]) {
      var shorter := path[..|path| - 1];
      TrimExact(shorter);
      assert path == shorter + [path[|path| - 1]];
    }
  }

  /** The only way to take separators off the end until something else, or nothing, is last. */
  lemma {:induction false} TrimUnique(kept: string, tail: string)
    requires OnlySeparators(tail) && (kept != "" ==> !IsSeparator(kept[|kept| - 1]))
    ensures TrimEnd(kept + tail) == kept
    decreases |tail|
  {
    if tail == "" {
      assert kept + tail == kept;
    } else {
      var shorter := tail[..|tail| - 1];
      TrimUnique(kept, shorter);
      assert (kept + tail)[..|kept + tail| - 1] == kept + shorter;
    }
  }

  lemma NormalizeAppend(root: string, more: string)
    requires Normalize(root) == root
    ensures Normalize(root + more) ==
            if !OnlySeparators(more) then root + TrimEnd(more)
            else if OnlySeparators(root) then root + more
            else root
  {
    hide TrimEnd;
    TrimExact(root);
    TrimExact(more);
    if !OnlySeparators(more) {
      var kept, tail := TrimEnd(more), more[|TrimEnd(more)|..];
      assert more == kept + tail;
      assert root + more == (root + kept) + tail;
      TrimUnique(root + kept, tail);
    } else if OnlySeparators(root) {
      assert OnlySeparators(root + more);
      assert root + more == "" + (root + more);
      TrimUnique("", root + more);
    } else {
      assert root == TrimEnd(root) + root[|TrimEnd(root)|..];
      TrimUnique(root, more);
    }
  }

  lemma NormalIsNormal(root: string)
    ensures Normalize(Normalize(root)) == Normalize(root)
    ensures Normalize(root) <= root && OnlySeparators(root[|Normalize(root)|..])
  {
    hide TrimEnd;
    TrimExact(root);
    if TrimEnd(root) != "" {
      assert TrimEnd(root) + "" == TrimEnd(root);
      TrimUnique(TrimEnd(root), "");
    }
  }

  lemma NormalContinuation(root: string, more: string)
    requires Normalize(root) == root
    ensures Inside(root, root + more) <==> more == "" || IsSeparator(more[0])
  {
    hide TrimEnd, Inside, Normalize;
    NormalizeAppend(root, more);
    InsideExact(root, root + more);
    TrimExact(more);
  }

  /** Behind a root lie exactly the root itself, what follows it after a separator, and everything when
      the root is written with a trailing separator that normalisation takes off. So `/data` does not
      contain `/data2`, and the root `/` does not contain `/etc`. */
  lemma ContinuationExact(root: string, more: string)
    ensures Inside(root, root + more) <==> more == "" || IsSeparator(more[0]) || Normalize(root) != root
  {
    hide TrimEnd, Inside, Normalize;
    var r := Normalize(root);
    NormalIsNormal(root);
    var behind := root[|r|..] + more;
    assert root + more == r + behind;
    NormalContinuation(r, behind);
    InsideExact(root, root + more);
    InsideExact(r, r + behind);
    assert r != root ==> behind != "" && IsSeparator(behind[0]);
    assert r == root ==> behind == more;
  }

  /** The path of a child as it is usually written: one separator between root and child. */
  function Join(root: string, child: string): string {
    if root != "" && IsSeparator(root[|root| - 1]) then root + child else root + "/" + child
  }

  /** A root contains its children exactly when it is empty or has something besides separators in its
      name; otherwise only a child that is empty or starts with one more separator. */
  lemma ChildExact(root: string, child: string)
    ensures Inside(root, Join(root, child)) <==>
            root == "" || !OnlySeparators(root) || child == "" || IsSeparator(child[0])
  {
    hide TrimEnd, Inside, Normalize;
    OwnNormalForm(root);
    if root != "" && IsSeparator(root[|root| - 1]) {
      ContinuationExact(root, child);
    } else {
      assert root + "/" + child == root + ("/" + child);
      ContinuationExact(root, "/" + child);
    }
  }

  /** A root that ends in a separator is its own normal form exactly when it is nothing but separators. */
  lemma OwnNormalForm(root: string)
    ensures root != "" && IsSeparator(root[|root| - 1]) ==> (Normalize(root) == root <==> OnlySeparators(root))
    ensures OnlySeparators(root) && root != "" ==> IsSeparator(root[|root| - 1])
  {
    hide TrimEnd;
    TrimExact(root);
    if OnlySeparators(root) {
      assert "" + root == root;
      TrimUnique("", root);
    }
  }

  lemma SystemRootHoldsNoFile()
    ensures !Inside("/", "/etc") && Inside("/data", "/data/a") && !Inside("/data", "/data2")
  {
    assert Normalize("/") == "/" && Normalize("/data") == "/data" by { TrimUnique("", "/"); }
    ContinuationExact("/", "etc");
    ContinuationExact("/data", "/a");
    ContinuationExact("/data", "2");
    assert "/" + "etc" == "/etc" && "/data" + "/a" == "/data/a" && "/data" + "2" == "/data2";
  }

  /** A path joined to any root by a separator lies inside it, however the root is written. */
  lemma JoinedIsInside(root: string, separator: char, child: string)
    requires separator == '/' || separator == '\\'
    ensures Inside(root, root + [separator] + child)
  {
    hide TrimEnd, Inside, Normalize;
    assert root + [separator] + child == root + ([separator] + child);
    ContinuationExact(root, [separator] + child);
  }

  // ----- widening by the filesystem roots -----

  function PathScope(root: string, writable: bool): OperationScope {
    OperationScope(PathOperation, root, writable)
  }

  function AddOnce(scopes: seq<OperationScope>, scope: OperationScope): seq<OperationScope> {
    if scope in scopes then scopes else scopes + [scope]
  }

  /** The roots in order, each as a read scope, or the writable ones as write scopes. */
  function AddRoots(scopes: seq<OperationScope>, roots: seq<FileSystemScope>, writable: bool): seq<OperationScope>
    decreases |roots|
  {
    if roots == [] then scopes
    else if writable && !roots[0].writable then AddRoots(scopes, roots[1..], writable)
    else AddRoots(AddOnce(scopes, PathScope(roots[0].root, writable)), roots[1..], writable)
  }

  function Widen(scopes: seq<OperationScope>, roots: seq<FileSystemScope>, read: bool, write: bool): seq<OperationScope>
  {
    var readable := if read then AddRoots(scopes, roots, false) else scopes;
    if write then AddRoots(readable, roots, true) else readable
  }

  /** What widening asks for. */
  ghost predicate Wanted(scope: OperationScope, roots: seq<FileSystemScope>, read: bool, write: bool) {
    exists k :: 0 <= k < |roots| &&
      ((read && scope == PathScope(roots[k].root, false)) ||
       (write && roots[k].writable && scope == PathScope(roots[k].root, true)))
  }

  ghost predicate Distinct(scopes: seq<OperationScope>) {
    forall i, j :: 0 <= i < j < |scopes| ==> scopes[i] != scopes[j]
  }

  lemma {:induction false} AddRootsExact(scopes: seq<OperationScope>, roots: seq<FileSystemScope>, writable: bool)
    ensures scopes <= AddRoots(scopes, roots, writable)
    ensures Distinct(scopes) ==> Distinct(AddRoots(scopes, roots, writable))
    ensures forall s :: s in AddRoots(scopes, roots, writable) <==> s in scopes || Wanted(s, roots, !writable, writable)
    decreases |roots|
  {
    if roots != [] {
      var scope := PathScope(roots[0].root, writable);
      var added := if writable && !roots[0].writable then scopes else AddOnce(scopes, scope);
      AddRootsExact(added, roots[1..], writable);
      WantedSplits(roots, !writable, writable);
    }
  }

  lemma WantedSplits(roots: seq<FileSystemScope>, read: bool, write: bool)
    requires roots != []
    ensures forall s :: Wanted(s, roots, read, write) <==>
            Wanted(s, [roots[0]], read, write) || Wanted(s, roots[1..], read, write)
  {
    forall s ensures Wanted(s, roots, read, write) <==>
                     Wanted(s, [roots[0]], read, write) || Wanted(s, roots[1..], read, write) {
      if Wanted(s, [roots[0]], read, write) {
        assert [roots[0]][0] == roots[0];
      }
      if Wanted(s, roots[1..], read, write) {
        var k :| 0 <= k < |roots[1..]| &&
          ((read && s == PathScope(roots[1..][k].root, false)) ||
           (write && roots[1..][k].writable && s == PathScope(roots[1..][k].root, true)));
        assert roots[k + 1] == roots[1..][k];
      }
      if Wanted(s, roots, read, write) {
        var k :| 0 <= k < |roots| &&
          ((read && s == PathScope(roots[k].root, false)) ||
           (write && roots[k].writable && s == PathScope(roots[k].root, true)));
        assert k == 0 ==> [roots[0]][0] == roots[k];
        assert k > 0 ==> roots[1..][k - 1] == roots[k];
      }
    }
  }

  /** Widening keeps the old scopes, in front and in order; adds exactly the roots the permissions call
      for; and never makes a scope appear twice. */
  lemma WidenExact(scopes: seq<OperationScope>, roots: seq<FileSystemScope>, read: bool, write: bool)
    ensures scopes <= Widen(scopes, roots, read, write)
    ensures Distinct(scopes) ==> Distinct(Widen(scopes, roots, read, write))
    ensures forall s :: s in Widen(scopes, roots, read, write) <==> s in scopes || Wanted(s, roots, read, write)
  {
    hide AddRoots, Distinct;
    var readable := if read then AddRoots(scopes, roots, false) else scopes;
    AddRootsExact(scopes, roots, false);
    AddRootsExact(readable, roots, true);
  }

  lemma {:induction false} NothingToAdd(scopes: seq<OperationScope>, roots: seq<FileSystemScope>, writable: bool)
    requires forall s :: Wanted(s, roots, !writable, writable) ==> s in scopes
    ensures AddRoots(scopes, roots, writable) == scopes
    decreases |roots|
  {
    if roots != [] {
      WantedSplits(roots, !writable, writable);
      if !(writable && !roots[0].writable) {
        assert Wanted(PathScope(roots[0].root, writable), [roots[0]], !writable, writable) by {
          assert [roots[0]][0] == roots[0];
        }
      }
      NothingToAdd(scopes, roots[1..], writable);
    }
  }

  /** Widening twice is widening once. */
  lemma WidenIdempotent(scopes: seq<OperationScope>, roots: seq<FileSystemScope>, read: bool, write: bool)
    ensures Widen(Widen(scopes, roots, read, write), roots, read, write) == Widen(scopes, roots, read, write)
  {
    hide AddRoots;
    var once := Widen(scopes, roots, read, write);
    WidenExact(scopes, roots, read, write);
    if read {
      assert forall s :: Wanted(s, roots, true, false) ==> Wanted(s, roots, read, write);
      NothingToAdd(once, roots, false);
    }
    if write {
      assert forall s :: Wanted(s, roots, false, true) ==> Wanted(s, roots, read, write);
      NothingToAdd(once, roots, true);
    }
  }

  /** The request lies inside the root; one for writing needs a writable root and the right to write. */
  ghost predicate RootAllows(root: FileSystemScope, read: bool, write: bool, requested: OperationScope) {
    && requested.kind == PathOperation && Inside(root.root, requested.value)
    && if requested.writable then write && root.writable else read || (write && root.writable)
  }

  /** A widened list allows what the old one allowed, and what lies inside a root added. */
  lemma WidenedAllowsExact(scopes: seq<OperationScope>, roots: seq<FileSystemScope>, read: bool, write: bool,
                           requested: OperationScope)
    ensures (exists s :: s in Widen(scopes, roots, read, write) && Allows(s, requested)) <==>
            || (exists s :: s in scopes && Allows(s, requested))
            || (exists k :: 0 <= k < |roots| && RootAllows(roots[k], read, write, requested))
  {
    hide Widen, Inside;
    WidenExact(scopes, roots, read, write);
    if s :| s in Widen(scopes, roots, read, write) && Allows(s, requested) && s !in scopes {
      var k :| 0 <= k < |roots| &&
        ((read && s == PathScope(roots[k].root, false)) ||
         (write && roots[k].writable && s == PathScope(roots[k].root, true)));
      assert RootAllows(roots[k], read, write, requested);
    }
    if k :| 0 <= k < |roots| && RootAllows(roots[k], read, write, requested) {
      var s := PathScope(roots[k].root, write && roots[k].writable);
      assert Wanted(s, roots, read, write) && Allows(s, requested);
    }
  }

  /** The loops of with_file_system_scopes. */
  method WithFileSystemScopes(scopes: seq<OperationScope>, roots: seq<FileSystemScope>, read: bool, write: bool)
    returns (widened: seq<OperationScope>)
    ensures widened == Widen(scopes, roots, read, write)
  {
    widened := scopes;
    if read {
      for k := 0 to |roots|
        invariant AddRoots(widened, roots[k..], false) == AddRoots(scopes, roots, false)
      {
        assert roots[k..][1..] == roots[k + 1..];
        widened := AddOnce(widened, PathScope(roots[k].root, false));
      }
    }
    ghost var readable := widened;
    if write {
      for k := 0 to |roots|
        invariant AddRoots(widened, roots[k..], true) == AddRoots(readable, roots, true)
      {
        assert roots[k..][1..] == roots[k + 1..];
        if roots[k].writable {
          widened := AddOnce(widened, PathScope(roots[k].root, true));
        }
      }
    }
  }
}
