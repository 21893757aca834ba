/** Function and presumably unbound names: the walk up to the scope that declares the function, and the sweep
    down from there. In a file without class information no function is a method, so a name is bound by the
    innermost scope on the way up that declares a function of that name, or by none.
 */
module ScopeFunctions {
  import opened Options
  import opened Ranges
  import opened ScopeTree
  import opened ScopeSweep
  import opened ScopeVariables

  datatype Location = Location(uri: string, range: Range)

  class LocationList {
    var items: seq<Location>

    constructor ()
      ensures items == []
    {
      items := [];
    }

    method Push(location: Location)
      modifies this
      ensures items == old(items) + [location]
    {
      items := items + [location];
    }
  }

  datatype FunctionlikeType = Function | UnboundName

  /** The function a scope's map holds under a name. */
  function FunctionIndex(functions: seq<FunctionInfo>, name: string): (index: Option<nat>)
    ensures index.Some? ==> index.value < |functions| && functions[index.value].name == name
    ensures index.None? ==> forall i :: 0 <= i < |functions| ==> functions[i].name != name
  {
    if functions == [] then None
    else if functions[|functions| - 1].name == name then Some(|functions| - 1)
    else FunctionIndex(functions[..|functions| - 1], name)
  }

  /** Where a scope declares a function: a prototype declares none. */
  function DeclarationOf(scope: Scope, name: string): (id: Option<NamedRange>)
    requires ValidBelow(scope)
    ensures id.Some? <==> scope.DeclaresFunction(name)
    ensures id.Some? ==> exists i ::
              && 0 <= i < |scope.functionScopes| && scope.functionScopes[i].name == name
              && HasChild(scope, i) && Child(scope, i).FunctionScope? && Child(scope, i).declarationNameId == id.value
  {
    match FunctionIndex(scope.functionScopes, name)
    case None => None
    case Some(i) =>
      if scope.functionScopes[i].functionScope.Some? then
        assert HasChild(scope, i);
        Some(scope.functionScopes[i].functionScope.value.declarationNameId)
      else None
  }

  datatype CallBinder = DeclaredIn(scope: Path) | NotDeclared

  /** The innermost enclosing scope that declares the function. */
  function BinderOf(root: Scope, path: Path, k: nat, name: string): CallBinder
    requires HasPath(root, path) && k <= |path|
  {
    if ScopeAt(root, path, k).DeclaresFunction(name) then DeclaredIn(path[..k])
    else if k == 0 then NotDeclared
    else BinderOf(root, path, k - 1, name)
  }

  function Binder(root: Scope, path: Path, name: string): CallBinder
    requires HasPath(root, path)
  {
    BinderOf(root, path, |path|, name)
  }

  /** The scope a search sweeps from: the declaring scope, or the whole file for an unbound name. */
  function SweepStart(binder: CallBinder): Path {
    match binder
    case DeclaredIn(scope) => scope
    case NotDeclared => []
  }

  lemma {:induction false} BinderIsInnermost(root: Scope, path: Path, k: nat, name: string)
    requires HasPath(root, path) && k <= |path|
    ensures var binder := BinderOf(root, path, k, name);
            && SweepStart(binder) <= path[..k]
            && (binder.DeclaredIn? ==> ScopeAt(root, path, |binder.scope|).DeclaresFunction(name) &&
                                       binder.scope == path[..|binder.scope|])
            && (forall j :: |SweepStart(binder)| < j <= k ==> !ScopeAt(root, path, j).DeclaresFunction(name))
            && (binder.NotDeclared? ==> !ScopeAt(root, path, 0).DeclaresFunction(name))
  {
    if !ScopeAt(root, path, k).DeclaresFunction(name) && k > 0 {
      BinderIsInnermost(root, path, k - 1, name);
      assert path[..k - 1] <= path[..k];
    }
  }

  lemma {:induction false} BinderFromDeclaration(root: Scope, path: Path, m: nat, k: nat, name: string)
    requires HasPath(root, path) && m <= k <= |path|
    requires forall j :: m < j <= k ==> !ScopeAt(root, path, j).DeclaresFunction(name)
    ensures BinderOf(root, path, k, name) == BinderOf(root, path, m, name)
  {
    if m < k {
      BinderFromDeclaration(root, path, m, k - 1, name);
    }
  }

  // ----- the searches as code

  /** The sweep inside a function scope. A scope that has a function of this name hides the one looked for, except
      where the sweep for a declared function starts. */
  method SweepFunctionScope(
    acc: RefsAndDefs, scope: Scope, name: string, tp: FunctionlikeType, initialCall: bool, uri: string
  )
    modifies acc
    ensures acc.defs == old(acc.defs)
    ensures acc.refs == if scope.HasFunction(name) && !(tp == Function && initialCall) then old(acc.refs)
                        else Appended(old(acc.refs), Swept(scope, LocalFunction, Calls, name, uri))
    decreases scope
  {
    if scope.HasFunction(name) && (tp == UnboundName || !initialCall) {
      return;
    }
    ghost var refs := acc.refs;
    acc.PushRefs(Tagged(uri, scope.Calls(name)));
    SweptStarts(scope, LocalFunction, refs, Calls, name, uri);
    var i := 0;
    while i < |scope.functionScopes|
      invariant i <= |scope.functionScopes|
      invariant acc.defs == old(acc.defs)
      invariant Appended(acc.refs, SweptFrom(scope, LocalFunction, i, Calls, name, uri)) ==
                Appended(refs, Swept(scope, LocalFunction, Calls, name, uri))
    {
      SweptStep(scope, LocalFunction, i, acc.refs, Calls, name, uri);
      if HasChild(scope, i) {
        SweepFunctionScope(acc, Child(scope, i), name, tp, false, uri);
      }
      i := i + 1;
    }
    SweptEnds(scope, LocalFunction, acc.refs, Calls, name, uri);
  }

  method SweepGlobalScope(acc: RefsAndDefs, scope: Scope, name: string, tp: FunctionlikeType, uri: string)
    modifies acc
    ensures acc.defs == old(acc.defs)
    ensures acc.refs == Appended(old(acc.refs), Swept(scope, LocalFunction, Calls, name, uri))
  {
    ghost var refs := acc.refs;
    acc.PushRefs(Tagged(uri, scope.Calls(name)));
    SweptStarts(scope, LocalFunction, refs, Calls, name, uri);
    var i := 0;
    while i < |scope.functionScopes|
      invariant i <= |scope.functionScopes|
      invariant acc.defs == old(acc.defs)
      invariant Appended(acc.refs, SweptFrom(scope, LocalFunction, i, Calls, name, uri)) ==
                Appended(refs, Swept(scope, LocalFunction, Calls, name, uri))
    {
      SweptStep(scope, LocalFunction, i, acc.refs, Calls, name, uri);
      if HasChild(scope, i) {
        SweepFunctionScope(acc, Child(scope, i), name, tp, false, uri);
      }
      i := i + 1;
    }
    SweptEnds(scope, LocalFunction, acc.refs, Calls, name, uri);
  }

  /** The walk up from a call, sweeping down again from the scope that declares the function. */
  method AccumulateFunctionOrUnboundRefsOrDefs(
    acc: RefsAndDefs, defs: LocationList, root: Scope, currentScope: Path, name: string, uri: string
  ) returns (tp: FunctionlikeType)
    requires ValidFile(root) && HasPath(root, currentScope)
    modifies acc, defs
    ensures acc.defs == old(acc.defs)
    ensures tp == Function <==> Binder(root, currentScope, name).DeclaredIn?
    ensures HasPath(root, SweepStart(Binder(root, currentScope, name)))
    ensures var start := At(root, SweepStart(Binder(root, currentScope, name)));
            && ValidBelow(start)
            && acc.refs == Appended(old(acc.refs), Swept(start, LocalFunction, Calls, name, uri))
            && defs.items == old(defs.items) +
                             (if tp == Function && DeclarationOf(start, name).Some?
                              then [Location(uri, DeclarationOf(start, name).value.range)] else [])
    decreases |currentScope|
  {
    var scope := At(root, currentScope);
    assert currentScope[..|currentScope|] == currentScope;
    ValidAt(root, currentScope);
    var declaration := DeclarationOf(scope, name);
    if currentScope == [] {
      tp := UnboundName;
      if declaration.Some? {
        defs.Push(Location(uri, declaration.value.range));
        tp := Function;
      }
      SweepGlobalScope(acc, scope, name, tp, uri);
    } else if declaration.Some? {
      defs.Push(Location(uri, declaration.value.range));
      SweepFunctionScope(acc, scope, name, Function, true, uri);
      tp := Function;
    } else {
      var parent := currentScope[..|currentScope| - 1];
      PrefixHasPathOnly(root, currentScope, |currentScope| - 1);
      BinderOfPrefix(root, currentScope, |parent|, |parent|, name);
      tp := AccumulateFunctionOrUnboundRefsOrDefs(acc, defs, root, parent, name, uri);
    }
  }

  lemma {:induction false} BinderOfPrefix(root: Scope, path: Path, n: nat, k: nat, name: string)
    requires HasPath(root, path) && k <= n <= |path|
    ensures HasPath(root, path[..n])
    ensures BinderOf(root, path[..n], k, name) == BinderOf(root, path, k, name)
  {
    PrefixHasPathOnly(root, path, n);
    assert path[..n][..k] == path[..k];
    if k > 0 {
      BinderOfPrefix(root, path, n, k - 1, name);
    }
  }

  // ----- the walk and the sweep agree

  /** A search started at one call finds a call in the scope at another path. */
  predicate FindsCall(root: Scope, from: Path, at: Path, name: string)
    requires HasPath(root, from)
  {
    var start := SweepStart(Binder(root, from, name));
    start <= at && HasPath(root, start) && at[|start|..] in SweptPaths(At(root, start), LocalFunction, name)
  }

  /** Below the given depth, some scope on the path has a prototype of this name that it never defines. */
  predicate PrototypeBelow(root: Scope, path: Path, depth: nat, name: string)
    requires HasPath(root, path)
  {
    exists j :: depth < j <= |path| && ScopeAt(root, path, j).HasFunction(name) &&
        !ScopeAt(root, path, j).DeclaresFunction(name)
  }

  /** The search finds exactly the calls that resolve to the same declaration, or to none like it, save those below
      a prototype, which stops the sweep but not the walk. */
  lemma {:induction false} FindsCallIsSameBinder(root: Scope, from: Path, at: Path, name: string)
    requires HasPath(root, from) && HasPath(root, at)
    ensures FindsCall(root, from, at, name) <==>
            && Binder(root, at, name) == Binder(root, from, name)
            && !PrototypeBelow(root, at, |SweepStart(Binder(root, from, name))|, name)
  {
    var binder := Binder(root, from, name);
    var start := SweepStart(binder);
    BinderIsInnermost(root, from, |from|, name);
    BinderIsInnermost(root, at, |at|, name);
    PrefixHasPathOnly(root, from, |start|);
    assert from[..|start|] == start && from[..|from|] == from && at[..|at|] == at;
    if start <= at {
      assert at[..|start|] == start;
      assert ScopeAt(root, at, |start|) == At(root, start) == ScopeAt(root, from, |start|);
      SweptIsVisible(At(root, start), LocalFunction, name, at[|start|..]);
      VisibleIsUnblocked(root, at, |start|, LocalFunction, name);
      assert forall j :: |start| < j <= |at| ==>
        (Blocks(ScopeAt(root, at, j), LocalFunction, name) <==> ScopeAt(root, at, j).HasFunction(name));
      if FindsCall(root, from, at, name) {
        BinderFromDeclaration(root, at, |start|, |at|, name);
      }
    }
  }

  // ----- said of the fields of the scopes

  predicate Holds(scope: Scope, name: string, withScope: bool) {
    exists i :: 0 <= i < |scope.functionScopes| && scope.functionScopes[i].name == name &&
                (withScope ==> scope.functionScopes[i].functionScope.Some?)
  }

  /** The walk up from a call stops at the nearest scope that holds a function of that name with a scope of its own, or
      nowhere, and a sweep from above enters just the scopes with no function of that name, on the way down to them
      included. */
  lemma {:induction false} NearestFunctionDecides(root: Scope, path: Path, name: string)
    requires HasPath(root, path)
    ensures forall k :: 0 <= k <= |path| && Holds(ScopeAt(root, path, k), name, true) &&
                        (forall j :: k < j <= |path| ==> !Holds(ScopeAt(root, path, j), name, true)) ==>
                          Binder(root, path, name) == DeclaredIn(path[..k])
    ensures (forall k :: 0 <= k <= |path| ==> !Holds(ScopeAt(root, path, k), name, true)) ==>
              Binder(root, path, name) == NotDeclared
    ensures forall k :: 0 <= k <= |path| ==>
              (path[k..] in SweptPaths(ScopeAt(root, path, k), LocalFunction, name) <==>
               forall j :: k < j <= |path| ==> !Holds(ScopeAt(root, path, j), name, false))
  {
    BinderIsInnermost(root, path, |path|, name);
    assert path[..|path|] == path;
    forall j | 0 <= j <= |path|
      ensures ScopeAt(root, path, j).DeclaresFunction(name) <==> Holds(ScopeAt(root, path, j), name, true)
      ensures Blocks(ScopeAt(root, path, j), LocalFunction, name) <==> Holds(ScopeAt(root, path, j), name, false)
    {
    }
    forall k | 0 <= k <= |path|
      ensures path[k..] in SweptPaths(ScopeAt(root, path, k), LocalFunction, name) <==>
              forall j :: k < j <= |path| ==> !Holds(ScopeAt(root, path, j), name, false)
    {
      SweptIsVisible(ScopeAt(root, path, k), LocalFunction, name, path[k..]);
      VisibleIsUnblocked(root, path, k, LocalFunction, name);
    }
  }

  /** No function of the file is a prototype without a body. */
  ghost predicate NoPrototypes(scope: Scope) {
    forall i :: 0 <= i < |scope.functionScopes| ==> HasChild(scope, i) && NoPrototypes(Child(scope, i))
  }

  lemma {:induction false} NoPrototypesAt(scope: Scope, path: Path)
    requires NoPrototypes(scope) && HasPath(scope, path)
    ensures NoPrototypes(At(scope, path))
  {
    if path != [] {
      NoPrototypesAt(Child(scope, path[0]), path[1..]);
    }
  }

  /** Without prototypes the calls of a name are partitioned by what they resolve to: a search from any call finds
      itself and exactly the calls with its binder, so none is lost and none is shared. */
  lemma {:induction false} CallsArePartitioned(root: Scope, from: Path, at: Path, name: string)
    requires NoPrototypes(root) && HasPath(root, from) && HasPath(root, at)
    ensures FindsCall(root, from, at, name) <==> Binder(root, at, name) == Binder(root, from, name)
    ensures FindsCall(root, from, from, name)
  {
    FindsCallIsSameBinder(root, from, at, name);
    FindsCallIsSameBinder(root, from, from, name);
    forall path: Path, j: nat | HasPath(root, path) && j <= |path| && ScopeAt(root, path, j).HasFunction(name)
      ensures ScopeAt(root, path, j).DeclaresFunction(name)
    {
      PrefixHasPathOnly(root, path, j);
      NoPrototypesAt(root, path[..j]);
      var scope := ScopeAt(root, path, j);
      var i :| 0 <= i < |scope.functionScopes| && scope.functionScopes[i].name == name;
      assert HasChild(scope, i);
    }
  }

  /** A prototype stops the sweep that its own call would need: the search from that call does not find it. */
  lemma {:induction false} PrototypeLosesItsCall(call: Identifier, id: NamedRange) returns (root: Scope, path: Path)
    ensures ValidFile(root) && HasPath(root, path) && At(root, path).Calls("f") == [call]
    ensures !FindsCall(root, path, path, "f")
  {
    var inner := FunctionScope(map[], {}, map["f" := [call]], [FunctionInfo("f", None)], id, {}, {});
    root := GlobalScope(map[], {}, map[], [FunctionInfo("main", Some(inner))]);
    path := [0];
    assert ValidBelow(inner);
    assert At(root, path) == inner by {
      assert Child(root, 0) == inner && path[1..] == [];
    }
    assert path[..1] == path && path[..0] == [];
    assert !inner.DeclaresFunction("f") && inner.HasFunction("f") by {
      assert inner.functionScopes[0].name == "f";
    }
    assert !root.DeclaresFunction("f") by {
      assert root.functionScopes[0].name == "main" != "f";
    }
    assert ScopeAt(root, path, 1) == inner && ScopeAt(root, path, 0) == root;
    assert BinderOf(root, path, 0, "f") == NotDeclared && Binder(root, path, "f") == NotDeclared;
    assert PrototypeBelow(root, path, 0, "f");
    FindsCallIsSameBinder(root, path, path, "f");
  }
}
