/** Global variables: a sweep from the file's global scope that tracks, on the way down, whether an enclosing
    function declared the name global. It is compared with the walk up from a reference.
 */
module ScopeGlobals {
  import opened Options
  import opened ScopeTree
  import opened ScopeSweep
  import opened ScopeVariables

  /** What the sweep knows when it is inside a scope. */
  datatype SweepState = Undeclared | Declared | Stopped

  function Enter(state: SweepState, scope: Scope, name: string): SweepState {
    match state
    case Undeclared => if name in scope.globals then Declared else Undeclared
    case Declared => if scope.Shadows(name, false) && name !in scope.globals then Stopped else Declared
    case Stopped => Stopped
  }

  /** The scopes whose identifiers the sweep collects, below a scope it is in with the given state. */
  function GlobalBelow(scope: Scope, state: SweepState, i: nat, name: string): seq<Path>
    requires i <= |scope.functionScopes|
    decreases scope, |scope.functionScopes| - i
  {
    if i == |scope.functionScopes| then []
    else
      (if HasChild(scope, i) then Prefixed(i, GlobalFrom(Child(scope, i), Enter(state, Child(scope, i), name), name))
          else [])
      + GlobalBelow(scope, state, i + 1, name)
  }

  function GlobalFrom(scope: Scope, state: SweepState, name: string): seq<Path>
    decreases scope, |scope.functionScopes| + 1
  {
    if state == Stopped then []
    else (if state == Declared then [[]] else []) + GlobalBelow(scope, state, 0, name)
  }

  /** The scopes collected from the whole file. A global declaration at script level covers the script only. */
  function GlobalPaths(root: Scope, name: string): seq<Path> {
    (if name in root.globals then [[]] else []) + GlobalBelow(root, Undeclared, 0, name)
  }

  /** The sweep's state at the end of a path. */
  function Final(scope: Scope, state: SweepState, rel: Path, name: string): SweepState
    requires HasPath(scope, rel)
  {
    if rel == [] then state
    else Final(Child(scope, rel[0]), Enter(state, Child(scope, rel[0]), name), rel[1..], name)
  }

  lemma {:induction false} FinalStopped(scope: Scope, rel: Path, name: string)
    requires HasPath(scope, rel)
    ensures Final(scope, Stopped, rel, name) == Stopped
  {
    if rel != [] {
      FinalStopped(Child(scope, rel[0]), rel[1..], name);
    }
  }

  lemma {:induction false} InGlobalBelow(scope: Scope, state: SweepState, i: nat, name: string, rel: Path)
    requires i <= |scope.functionScopes|
    ensures rel in GlobalBelow(scope, state, i, name) <==>
            rel != [] && rel[0] >= i && HasPath(scope, rel) && Final(scope, state, rel, name) == Declared
    decreases scope, |scope.functionScopes| - i
  {
    hide GlobalBelow, GlobalFrom, Final, HasPath, Enter, Prefixed;
    BelowStep(scope, state, i, name, rel);
    FinalStep(scope, state, rel, name);
    if i < |scope.functionScopes| {
      InGlobalBelow(scope, state, i + 1, name, rel);
      if HasChild(scope, i) {
        var inner := Enter(state, Child(scope, i), name);
        InPrefixed(i, GlobalFrom(Child(scope, i), inner, name), rel);
        if rel != [] && rel[0] == i {
          InGlobalFrom(Child(scope, i), inner, name, rel[1..]);
        }
      }
    }
  }

  lemma BelowStep(scope: Scope, state: SweepState, i: nat, name: string, rel: Path)
    requires i <= |scope.functionScopes|
    ensures rel in GlobalBelow(scope, state, i, name) <==>
            i < |scope.functionScopes| &&
            ((HasChild(scope, i) && rel in Prefixed(i,
                GlobalFrom(Child(scope, i), Enter(state, Child(scope, i), name), name))) ||
             rel in GlobalBelow(scope, state, i + 1, name))
  {
    hide GlobalFrom, Enter, Prefixed;
  }

  lemma FinalStep(scope: Scope, state: SweepState, rel: Path, name: string)
    ensures rel != [] ==>
              (HasPath(scope, rel) <==> HasChild(scope, rel[0]) && HasPath(Child(scope, rel[0]), rel[1..]))
    ensures rel != [] && HasPath(scope, rel) ==>
              Final(scope, state, rel, name) == Final(Child(scope, rel[0]), Enter(state, Child(scope, rel[0]), name),
                  rel[1..], name)
  {
    hide Enter;
  }

  lemma {:induction false} InGlobalFrom(scope: Scope, state: SweepState, name: string, rel: Path)
    ensures rel in GlobalFrom(scope, state, name) <==> HasPath(scope, rel) && Final(scope, state, rel, name) == Declared
    decreases scope, |scope.functionScopes| + 1
  {
    if state == Stopped {
      if HasPath(scope, rel) {
        FinalStopped(scope, rel, name);
      }
    } else {
      assert rel in GlobalFrom(scope, state, name) <==>
             (state == Declared && rel == []) || rel in GlobalBelow(scope, state, 0, name);
      InGlobalBelow(scope, state, 0, name, rel);
    }
  }

  lemma GlobalBelowHasPaths(scope: Scope, state: SweepState, i: nat, name: string)
    requires i <= |scope.functionScopes|
    ensures AllPaths(scope, GlobalBelow(scope, state, i, name))
  {
    var paths := GlobalBelow(scope, state, i, name);
    forall k | 0 <= k < |paths| ensures HasPath(scope, paths[k]) {
      InGlobalBelow(scope, state, i, name, paths[k]);
    }
  }

  lemma GlobalFromHasPaths(scope: Scope, state: SweepState, name: string)
    ensures AllPaths(scope, GlobalFrom(scope, state, name))
  {
    var paths := GlobalFrom(scope, state, name);
    forall k | 0 <= k < |paths| ensures HasPath(scope, paths[k]) {
      InGlobalFrom(scope, state, name, paths[k]);
    }
  }

  // ----- the sweep as code

  function CollectedBelow(
    scope: Scope, state: SweepState, i: nat, kind: IdentifierKind, name: string, uri: string
  ): seq<FileScopedIdentifier>
    requires i <= |scope.functionScopes|
  {
    GlobalBelowHasPaths(scope, state, i, name);
    Collected(scope, GlobalBelow(scope, state, i, name), kind, name, uri)
  }

  function CollectedFrom(scope: Scope, state: SweepState, kind: IdentifierKind, name: string, uri: string)
    : seq<FileScopedIdentifier>
  {
    GlobalFromHasPaths(scope, state, name);
    Collected(scope, GlobalFrom(scope, state, name), kind, name, uri)
  }

  function CollectedGlobals(root: Scope, kind: IdentifierKind, name: string, uri: string): seq<FileScopedIdentifier> {
    GlobalBelowHasPaths(root, Undeclared, 0, name);
    Collected(root, GlobalPaths(root, name), kind, name, uri)
  }

  lemma CollectedSplit(scope: Scope, state: SweepState, own: bool, kind: IdentifierKind, name: string, uri: string)
    ensures AllPaths(scope, (if own then [[]] else []) + GlobalBelow(scope, state, 0, name))
    ensures Collected(scope, (if own then [[]] else []) + GlobalBelow(scope, state, 0, name), kind, name, uri) ==
            (if own then Tagged(uri, IdentifiersOf(scope, kind, name)) else []) +
            CollectedBelow(scope, state, 0, kind, name, uri)
  {
    var below := CollectedBelow(scope, state, 0, kind, name, uri);
    GlobalBelowHasPaths(scope, state, 0, name);
    CollectedConcat(scope, if own then [[]] else [], GlobalBelow(scope, state, 0, name), kind, name, uri);
    assert Collected(scope, [[]], kind, name, uri) == Tagged(uri, IdentifiersOf(scope, kind, name));
  }

  lemma CollectedStep(
    scope: Scope, state: SweepState, i: nat, list: Option<seq<FileScopedIdentifier>>, kind: IdentifierKind,
        name: string, uri: string
  )
    requires i < |scope.functionScopes|
    ensures Appended(list, CollectedBelow(scope, state, i, kind, name, uri)) ==
            Appended(
              if HasChild(scope, i)
              then Appended(list, CollectedFrom(Child(scope, i), Enter(state, Child(scope, i), name), kind, name, uri))
                  else list,
              CollectedBelow(scope, state, i + 1, kind, name, uri))
  {
    var rest := CollectedBelow(scope, state, i + 1, kind, name, uri);
    GlobalBelowHasPaths(scope, state, i + 1, name);
    if HasChild(scope, i) {
      var inner := Enter(state, Child(scope, i), name);
      var paths := GlobalFrom(Child(scope, i), inner, name);
      GlobalFromHasPaths(Child(scope, i), inner, name);
      CollectedPrefixed(scope, i, paths, kind, name, uri);
      CollectedConcat(scope, Prefixed(i, paths), GlobalBelow(scope, state, i + 1, name), kind, name, uri);
      AppendedTwice(list, CollectedFrom(Child(scope, i), inner, kind, name, uri), rest);
    } else {
      assert GlobalBelow(scope, state, i, name) == GlobalBelow(scope, state, i + 1, name);
    }
  }

  lemma AppendedNothing<T>(list: Option<seq<T>>)
    ensures Appended(list, []) == list
  {
    if list.Some? {
      assert list.value + [] == list.value;
    }
  }

  method SweepNestedFunctions(
    acc: RefsAndDefs, scope: Scope, name: string, uri: string, declaredGlobalInFunction: bool
  )
    requires ValidBelow(scope)
    modifies acc
    ensures var state := if declaredGlobalInFunction then Declared else Undeclared;
            && acc.refs == Appended(old(acc.refs), CollectedBelow(scope, state, 0, References, name, uri))
            && acc.defs == Appended(old(acc.defs), CollectedBelow(scope, state, 0, Definitions, name, uri))
    decreases scope, 0
  {
    ghost var state := if declaredGlobalInFunction then Declared else Undeclared;
    ghost var refs, defs := acc.refs, acc.defs;
    var i := 0;
    while i < |scope.functionScopes|
      invariant i <= |scope.functionScopes|
      invariant Appended(acc.refs, CollectedBelow(scope, state, i, References, name, uri)) ==
                Appended(refs, CollectedBelow(scope, state, 0, References, name, uri))
      invariant Appended(acc.defs, CollectedBelow(scope, state, i, Definitions, name, uri)) ==
                Appended(defs, CollectedBelow(scope, state, 0, Definitions, name, uri))
    {
      CollectedStep(scope, state, i, acc.refs, References, name, uri);
      CollectedStep(scope, state, i, acc.defs, Definitions, name, uri);
      if HasChild(scope, i) {
        SweepGlobalsInFunction(acc, Child(scope, i), name, uri, declaredGlobalInFunction);
      }
      i := i + 1;
    }
    AppendedNothing(acc.refs);
    AppendedNothing(acc.defs);
  }

  method SweepGlobalsInFunction(
    acc: RefsAndDefs, scope: Scope, name: string, uri: string, declaredGlobalInFunction: bool
  )
    requires ValidBelow(scope) && scope.FunctionScope?
    modifies acc
    ensures var state := Enter(if declaredGlobalInFunction then Declared else Undeclared, scope, name);
            && acc.refs == Appended(old(acc.refs), CollectedFrom(scope, state, References, name, uri))
            && acc.defs == Appended(old(acc.defs), CollectedFrom(scope, state, Definitions, name, uri))
    decreases scope, 1
  {
    ghost var state := Enter(if declaredGlobalInFunction then Declared else Undeclared, scope, name);
    ghost var refs, defs := acc.refs, acc.defs;
    var declared := declaredGlobalInFunction;
    AppendedNothing(acc.refs);
    AppendedNothing(acc.defs);
    if !declared {
      if name in scope.globals {
        declared := true;
      }
    } else if scope.Shadows(name, false) && name !in scope.globals {
      return;
    }
    var ownRefs, ownDefs := [], [];
    if declared {
      ownRefs, ownDefs := Tagged(uri, scope.References(name)), Tagged(uri, scope.Definitions(name));
      acc.Push(ownRefs, ownDefs);
    }
    CollectedSplit(scope, state, declared, References, name, uri);
    CollectedSplit(scope, state, declared, Definitions, name, uri);
    SweepNestedFunctions(acc, scope, name, uri, declared);
    AppendedTwice(refs, ownRefs, CollectedBelow(scope, state, 0, References, name, uri));
    AppendedTwice(defs, ownDefs, CollectedBelow(scope, state, 0, Definitions, name, uri));
  }

  method SweepAndAccumulateGlobalVarRefsOrDefs(acc: RefsAndDefs, root: Scope, name: string, uri: string)
    requires ValidFile(root)
    modifies acc
    ensures acc.refs == Appended(old(acc.refs), CollectedGlobals(root, References, name, uri))
    ensures acc.defs == Appended(old(acc.defs), CollectedGlobals(root, Definitions, name, uri))
  {
    ghost var refs, defs := acc.refs, acc.defs;
    AppendedNothing(acc.refs);
    AppendedNothing(acc.defs);
    var ownRefs, ownDefs := [], [];
    if name in root.globals {
      ownRefs, ownDefs := Tagged(uri, root.References(name)), Tagged(uri, root.Definitions(name));
      acc.Push(ownRefs, ownDefs);
    }
    CollectedSplit(root, Undeclared, name in root.globals, References, name, uri);
    CollectedSplit(root, Undeclared, name in root.globals, Definitions, name, uri);
    SweepNestedFunctions(acc, root, name, uri, false);
    AppendedTwice(refs, ownRefs, CollectedBelow(root, Undeclared, 0, References, name, uri));
    AppendedTwice(defs, ownDefs, CollectedBelow(root, Undeclared, 0, Definitions, name, uri));
  }

  // ----- the sweep against the walk up

  predicate DeclaresGlobal(root: Scope, path: Path, k: nat, name: string)
    requires HasPath(root, path) && k <= |path|
  {
    name in ScopeAt(root, path, k).globals
  }

  /** A parameter that is not declared global in its own function. */
  predicate HidesGlobal(root: Scope, path: Path, k: nat, name: string)
    requires HasPath(root, path) && k <= |path|
  {
    ScopeAt(root, path, k).IsParameter(name) && name !in ScopeAt(root, path, k).globals
  }

  predicate SomeGlobal(root: Scope, path: Path, k: nat, name: string)
    requires HasPath(root, path) && k <= |path|
  {
    exists i :: 1 <= i <= k && DeclaresGlobal(root, path, i, name)
  }

  /** A function on the path declares the name global and one nested in it hides that global with a parameter. */
  predicate GlobalThenParameter(root: Scope, path: Path, k: nat, name: string)
    requires HasPath(root, path) && k <= |path|
  {
    exists i, j :: 1 <= i < j <= k && DeclaresGlobal(root, path, i, name) && HidesGlobal(root, path, j, name)
  }

  function StateAt(root: Scope, path: Path, k: nat, name: string): SweepState
    requires HasPath(root, path) && k <= |path|
  {
    if GlobalThenParameter(root, path, k, name) then Stopped
    else if SomeGlobal(root, path, k, name) then Declared
    else Undeclared
  }

  lemma StateAdvances(root: Scope, path: Path, k: nat, name: string)
    requires HasPath(root, path) && k < |path|
    ensures Enter(StateAt(root, path, k, name), ScopeAt(root, path, k + 1), name) == StateAt(root, path, k + 1, name)
  {
    if GlobalThenParameter(root, path, k, name) {
      assert GlobalThenParameter(root, path, k + 1, name);
    } else if SomeGlobal(root, path, k, name) {
      assert SomeGlobal(root, path, k + 1, name);
      assert GlobalThenParameter(root, path, k + 1, name) <==> HidesGlobal(root, path, k + 1, name);
    } else {
      assert !GlobalThenParameter(root, path, k + 1, name);
      assert SomeGlobal(root, path, k + 1, name) <==> DeclaresGlobal(root, path, k + 1, name);
    }
  }

  lemma {:induction false} FinalIsStateAt(root: Scope, path: Path, k: nat, name: string)
    requires HasPath(root, path) && k <= |path|
    ensures HasPath(ScopeAt(root, path, k), path[k..])
    ensures Final(ScopeAt(root, path, k), StateAt(root, path, k, name), path[k..], name) ==
            StateAt(root, path, |path|, name)
    decreases |path| - k
  {
    PrefixHasPath(root, path, k);
    if k < |path| {
      ChildOnPath(root, path, k);
      StateAdvances(root, path, k, name);
      FinalIsStateAt(root, path, k + 1, name);
      assert path[k..][1..] == path[k + 1..];
    }
  }

  lemma {:induction false} StateAgainstEnvironment(root: Scope, path: Path, k: nat, name: string)
    requires HasPath(root, path) && k <= |path|
    ensures StateAt(root, path, k, name) == Declared ==> Environment(root, path, k, name) == GlobalVariable
    ensures StateAt(root, path, k, name) == Undeclared ==> Environment(root, path, k, name) != GlobalVariable
  {
    if k > 0 {
      StateAgainstEnvironment(root, path, k - 1, name);
      StateAdvances(root, path, k - 1, name);
    }
  }

  /** The walk up from a reference in the scope at the path classifies it as global. */
  predicate ResolvesGlobal(root: Scope, path: Path, name: string)
    requires HasPath(root, path)
  {
    if path == [] then name in root.globals else Resolve(root, path, name) == ResolvedGlobal
  }

  /** The global sweep collects exactly the references that resolve as global, except those below a function
      that declares the name global and a nested one that hides it with a parameter. */
  lemma GlobalSweepIsExact(root: Scope, path: Path, name: string)
    requires HasPath(root, path)
    ensures path in GlobalPaths(root, name) <==>
            ResolvesGlobal(root, path, name) && !GlobalThenParameter(root, path, |path|, name)
  {
    InGlobalBelow(root, Undeclared, 0, name, path);
    if path != [] {
      FinalIsStateAt(root, path, 0, name);
      assert path[0..] == path;
      StateAgainstEnvironment(root, path, |path|, name);
    }
  }

  /** A function on the path declares the name global again below one that hides the global with a parameter. */
  predicate Redeclared(root: Scope, path: Path, name: string)
    requires HasPath(root, path)
  {
    exists i, j, k :: 1 <= i < j < k <= |path| &&
      DeclaresGlobal(root, path, i, name) && HidesGlobal(root, path, j, name) && DeclaresGlobal(root, path, k, name)
  }

  lemma {:induction false} GlobalComesFromDeclaration(root: Scope, path: Path, j: nat, k: nat, name: string)
    requires HasPath(root, path) && j <= k <= |path|
    requires Environment(root, path, j, name) != GlobalVariable && Environment(root, path, k, name) == GlobalVariable
    ensures exists i :: j < i <= k && DeclaresGlobal(root, path, i, name)
  {
    if j < k {
      if Environment(root, path, k - 1, name) == GlobalVariable {
        GlobalComesFromDeclaration(root, path, j, k - 1, name);
      } else {
        assert DeclaresGlobal(root, path, k, name);
      }
    }
  }

  /** On a path that does not declare the name global again, a reference is collected by the global sweep exactly when
      it resolves as global. */
  lemma GlobalSweepAgrees(root: Scope, path: Path, name: string)
    requires HasPath(root, path) && !Redeclared(root, path, name)
    ensures path in GlobalPaths(root, name) <==> ResolvesGlobal(root, path, name)
  {
    GlobalSweepIsExact(root, path, name);
    if ResolvesGlobal(root, path, name) && GlobalThenParameter(root, path, |path|, name) {
      var i, j :| 1 <= i < j <= |path| && DeclaresGlobal(root, path, i, name) && HidesGlobal(root, path, j, name);
      assert Environment(root, path, j, name) == Scoped(j);
      GlobalComesFromDeclaration(root, path, j, |path|, name);
    }
  }

  /** The program takes it that no path declares a name global, hides it with a parameter and declares it global
      again. On a file where one does, the sweep misses a reference that resolves as global. */
  lemma GlobalSweepMissesRedeclared(x: Identifier, id: NamedRange) returns (root: Scope, path: Path)
    ensures ValidFile(root) && HasPath(root, path)
    ensures ResolvesGlobal(root, path, "g") && At(root, path).References("g") == [x]
    ensures path !in GlobalPaths(root, "g")
  {
    var innermost := FunctionScope(map["g" := VariableInfo([], [x])], {"g"}, map[], [], id, {}, {});
    var middle := FunctionScope(map[], {}, map[], [FunctionInfo("c", Some(innermost))], id, {"g"}, {});
    var outer := FunctionScope(map[], {"g"}, map[], [FunctionInfo("b", Some(middle))], id, {}, {});
    root := GlobalScope(map[], {}, map[], [FunctionInfo("a", Some(outer))]);
    path := [0, 0, 0];
    assert ValidBelow(innermost) && ValidBelow(middle) && ValidBelow(outer);
    AtConcat(root, [], [0]);
    assert At(root, [0]) == outer by {
      assert Child(root, 0) == outer && [0][1..] == [];
    }
    AtConcat(root, [0], [0]);
    assert [0] + [0] == [0, 0] && At(outer, [0]) == middle by {
      assert Child(outer, 0) == middle && [0][1..] == [];
    }
    AtConcat(root, [0, 0], [0]);
    assert [0, 0] + [0] == path && At(middle, [0]) == innermost by {
      assert Child(middle, 0) == innermost && [0][1..] == [];
    }
    assert path[..1] == [0] && path[..2] == [0, 0] && path[..3] == path;
    assert DeclaresGlobal(root, path, 1, "g") && HidesGlobal(root, path, 2, "g");
    assert Environment(root, path, 3, "g") == GlobalVariable;
    GlobalSweepIsExact(root, path, "g");
  }
}
