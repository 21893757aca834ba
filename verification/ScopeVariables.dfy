/** Variable references: the upward walk that finds where a variable lives, and the downward sweep
    that collects its uses. The two are separate code; the theorems here say that they agree.
 */
module ScopeVariables {
  import opened Options
  import opened ScopeTree
  import opened ScopeSweep

  /** What a name means inside a scope. */
  datatype Binder =
    | Unbound
    | GlobalVariable
    | Scoped(depth: nat) // the function scope at this depth of the path

  function ScopeAt(root: Scope, path: Path, k: nat): Scope
    requires HasPath(root, path) && k <= |path|
  {
    PrefixHasPathOnly(root, path, k);
    At(root, path[..k])
  }

  /** Lexical scoping, read from the outside in: a parameter or a global declaration rebinds a name, and a
      definition binds a name that has no binder yet. This is the meaning the searches must agree with. */
  function Environment(root: Scope, path: Path, k: nat, name: string): Binder
    requires HasPath(root, path) && k <= |path|
  {
    if k == 0 then Unbound
    else
      var scope := ScopeAt(root, path, k);
      var outer := Environment(root, path, k - 1, name);
      if scope.Shadows(name, true) then
        if name in scope.globals then GlobalVariable else Scoped(k)
      else if outer == Unbound && scope.Defines(name) then Scoped(k)
      else outer
  }

  datatype Resolution =
    | ResolvedGlobal
    | ResolvedFunction(sweepSource: Path)

  /** Where the uses of a variable referenced in a function scope are swept from. */
  function Resolve(root: Scope, path: Path, name: string): Resolution
    requires HasPath(root, path)
  {
    match Environment(root, path, |path|, name)
    case GlobalVariable => ResolvedGlobal
    case Scoped(k) => EnvironmentDepth(root, path, |path|, name); ResolvedFunction(path[..k])
    case Unbound => ResolvedFunction(path)
  }

  /** The scope declares the name as a parameter or output, or defines it. */
  predicate Binds(scope: Scope, name: string) {
    scope.IsParameter(name) || scope.Defines(name)
  }

  lemma {:induction false} EnvironmentDepth(root: Scope, path: Path, k: nat, name: string)
    requires HasPath(root, path) && k <= |path|
    ensures Environment(root, path, k, name).Scoped? ==>
              && 1 <= Environment(root, path, k, name).depth <= k
              && Binds(ScopeAt(root, path, Environment(root, path, k, name).depth), name)
              && Environment(root, path, Environment(root, path, k, name).depth, name) ==
                  Environment(root, path, k, name)
    ensures Environment(root, path, k, name).Scoped? ==>
              forall j :: Environment(root, path, k, name).depth < j <= k ==>
                  !ScopeAt(root, path, j).Shadows(name, true)
  {
    if k > 0 {
      EnvironmentDepth(root, path, k - 1, name);
    }
  }

  lemma {:induction false} EnvironmentPrefix(root: Scope, path: Path, n: nat, k: nat, name: string)
    requires HasPath(root, path) && k <= n <= |path|
    ensures HasPath(root, path[..n])
    ensures Environment(root, path[..n], k, name) == Environment(root, path, k, name)
  {
    PrefixHasPathOnly(root, path, n);
    assert path[..n][..k] == path[..k];
    if k > 0 {
      EnvironmentPrefix(root, path, n, k - 1, name);
    }
  }

  /** The walk up the nested function scopes, as a loop that looks for a shadowing declaration and
      otherwise keeps the widest scope with a definition. */
  method FindSweepSource(root: Scope, path: Path, name: string) returns (resolution: Resolution)
    requires HasPath(root, path) && path != []
    ensures resolution == Resolve(root, path, name)
  {
    var sweepSourceScope := path;
    var currentScope := path;
    ghost var below := Unbound; // what the scopes walked so far bind on their own
    assert path[..|path|] == path;
    while currentScope != []
      invariant |currentScope| <= |path| && currentScope == path[..|currentScope|] && HasPath(root, currentScope)
      invariant below.Unbound? || (below.Scoped? && |currentScope| < below.depth <= |path|)
      invariant sweepSourceScope == if below.Scoped? then path[..below.depth] else path
      invariant var outer := Environment(root, path, |currentScope|, name);
                Environment(root, path, |path|, name) == if outer != Unbound then outer else below
      decreases |currentScope|
    {
      var scope := At(root, currentScope);
      if scope.Shadows(name, true) {
        if name in scope.globals {
          return ResolvedGlobal;
        }
        sweepSourceScope := currentScope;
        break;
      }
      if scope.Defines(name) {
        sweepSourceScope := currentScope;
        below := Scoped(|currentScope|);
      }
      PrefixHasPathOnly(root, path, |currentScope| - 1);
      currentScope := currentScope[..|currentScope| - 1];
    }
    return ResolvedFunction(sweepSourceScope);
  }

  method SweepAndAccumulateVarRefsOrDefs(acc: RefsAndDefs, scope: Scope, name: string, uri: string)
    modifies acc
    ensures acc.refs == Appended(old(acc.refs), Swept(scope, ShadowingDeclaration, References, name, uri))
    ensures acc.defs == Appended(old(acc.defs), Swept(scope, ShadowingDeclaration, Definitions, name, uri))
    decreases scope
  {
    ghost var refs, defs := acc.refs, acc.defs;
    acc.Push(Tagged(uri, scope.References(name)), Tagged(uri, scope.Definitions(name)));
    SweptStarts(scope, ShadowingDeclaration, refs, References, name, uri);
    SweptStarts(scope, ShadowingDeclaration, defs, Definitions, name, uri);
    var i := 0;
    while i < |scope.functionScopes|
      invariant i <= |scope.functionScopes|
      invariant Appended(acc.refs, SweptFrom(scope, ShadowingDeclaration, i, References, name, uri)) ==
                Appended(refs, Swept(scope, ShadowingDeclaration, References, name, uri))
      invariant Appended(acc.defs, SweptFrom(scope, ShadowingDeclaration, i, Definitions, name, uri)) ==
                Appended(defs, Swept(scope, ShadowingDeclaration, Definitions, name, uri))
    {
      SweptStep(scope, ShadowingDeclaration, i, acc.refs, References, name, uri);
      SweptStep(scope, ShadowingDeclaration, i, acc.defs, Definitions, name, uri);
      if HasChild(scope, i) && !Child(scope, i).Shadows(name, true) {
        SweepAndAccumulateVarRefsOrDefs(acc, Child(scope, i), name, uri);
      }
      i := i + 1;
    }
    SweptEnds(scope, ShadowingDeclaration, acc.refs, References, name, uri);
    SweptEnds(scope, ShadowingDeclaration, acc.defs, Definitions, name, uri);
  }

  // ----- the walk and the sweep agree

  lemma ChildOnPath(root: Scope, path: Path, m: nat)
    requires HasPath(root, path) && m < |path|
    ensures HasChild(ScopeAt(root, path, m), path[m])
    ensures Child(ScopeAt(root, path, m), path[m]) == ScopeAt(root, path, m + 1)
  {
    PrefixHasPath(root, path, m);
    PrefixHasPathOnly(root, path, m + 1);
    assert path[..m + 1] == path[..m] + [path[m]];
    AtConcat(root, path[..m], [path[m]]);
  }

  /** A scope is visible from one above it when nothing in between, itself included, blocks the sweep. */
  lemma {:induction false} VisibleIsUnblocked(root: Scope, path: Path, m: nat, walls: Walls, name: string)
    requires HasPath(root, path) && m <= |path|
    ensures Visible(ScopeAt(root, path, m), walls, path[m..], name) <==>
            forall j :: m < j <= |path| ==> !Blocks(ScopeAt(root, path, j), walls, name)
    decreases |path| - m
  {
    if m < |path| {
      ChildOnPath(root, path, m);
      VisibleIsUnblocked(root, path, m + 1, walls, name);
      assert path[m..][1..] == path[m + 1..];
    }
  }

  lemma VisibleIsQuiet(root: Scope, path: Path, m: nat, name: string)
    requires HasPath(root, path) && m <= |path|
    ensures Visible(ScopeAt(root, path, m), ShadowingDeclaration, path[m..], name) <==>
            forall j :: m < j <= |path| ==> !ScopeAt(root, path, j).Shadows(name, true)
  {
    VisibleIsUnblocked(root, path, m, ShadowingDeclaration, name);
    assert forall j :: m < j <= |path| ==>
      (Blocks(ScopeAt(root, path, j), ShadowingDeclaration, name) <==> ScopeAt(root, path, j).Shadows(name, true));
  }

  /** A bound name keeps its binder down to the next shadowing declaration. */
  lemma {:induction false} EnvironmentPersists(root: Scope, path: Path, m: nat, k: nat, name: string)
    requires HasPath(root, path) && m <= k <= |path|
    requires forall j :: m < j <= k ==> !ScopeAt(root, path, j).Shadows(name, true)
    requires Environment(root, path, m, name) != Unbound
    ensures Environment(root, path, k, name) == Environment(root, path, m, name)
  {
    if m < k {
      EnvironmentPersists(root, path, m, k - 1, name);
    }
  }

  lemma ResolveSource(root: Scope, path: Path, name: string)
    requires HasPath(root, path) && Resolve(root, path, name).ResolvedFunction?
    ensures var source := Resolve(root, path, name).sweepSource;
            && source <= path && HasPath(root, source)
            && (forall j :: |source| < j <= |path| ==> !ScopeAt(root, path, j).Shadows(name, true))
            && (Binds(At(root, source), name) && source != [] ==>
                Environment(root, source, |source|, name) == Scoped(|source|))
            && (Environment(root, path, |path|, name) == Unbound ==> source == path)
  {
    var k := |Resolve(root, path, name).sweepSource|;
    EnvironmentDepth(root, path, |path|, name);
    PrefixHasPathOnly(root, path, k);
    EnvironmentPrefix(root, path, k, k, name);
    assert path[..|path|] == path;
    assert path[..k][..k] == path[..k];
  }

  /** The sweep from the chosen source contains the reference it was chosen for. */
  lemma SweepContainsReference(root: Scope, path: Path, name: string)
    requires HasPath(root, path) && Resolve(root, path, name).ResolvedFunction?
    ensures var source := Resolve(root, path, name).sweepSource;
            && source <= path && HasPath(root, source)
            && path[|source|..] in SweptPaths(At(root, source), ShadowingDeclaration, name)
  {
    ResolveSource(root, path, name);
    var source := Resolve(root, path, name).sweepSource;
    assert path[..|source|] == source;
    VisibleIsQuiet(root, path, |source|, name);
    SweptIsVisible(At(root, source), ShadowingDeclaration, name, path[|source|..]);
  }

  lemma SweptScopes(root: Scope, source: Path, name: string, rel: Path)
    requires HasPath(root, source)
    ensures rel in SweptPaths(At(root, source), ShadowingDeclaration, name) <==>
            && HasPath(root, source + rel)
            && forall j :: |source| < j <= |source + rel| ==> !ScopeAt(root, source + rel, j).Shadows(name, true)
  {
    SweptIsVisible(At(root, source), ShadowingDeclaration, name, rel);
    if rel in SweptPaths(At(root, source), ShadowingDeclaration, name) {
      VisibleHasPath(At(root, source), ShadowingDeclaration, rel, name);
    }
    AtConcat(root, source, rel);
    assert (source + rel)[..|source|] == source && (source + rel)[|source|..] == rel;
    if HasPath(root, source + rel) {
      VisibleIsQuiet(root, source + rel, |source|, name);
    }
  }

  /** Below a source that binds the name, the sweep finds exactly the scopes whose walk up ends there. */
  lemma BoundSweepIsExact(root: Scope, source: Path, name: string, at: Path)
    requires HasPath(root, source) && HasPath(root, at) && source != []
    requires Environment(root, source, |source|, name) == Scoped(|source|)
    ensures Resolve(root, at, name) == ResolvedFunction(source) <==>
            source <= at && at[|source|..] in SweptPaths(At(root, source), ShadowingDeclaration, name)
  {
    if source <= at {
      var rel := at[|source|..];
      assert source + rel == at && at[..|source|] == source;
      SweptScopes(root, source, name, rel);
      EnvironmentPrefix(root, at, |source|, |source|, name);
      if rel in SweptPaths(At(root, source), ShadowingDeclaration, name) {
        EnvironmentPersists(root, at, |source|, |at|, name);
      }
    }
    if Resolve(root, at, name) == ResolvedFunction(source) {
      SweepContainsReference(root, at, name);
    }
  }

  /** A search started at one reference finds a reference in the scope at another path. */
  predicate Finds(root: Scope, from: Path, at: Path, name: string)
    requires HasPath(root, from)
  {
    match Resolve(root, from, name)
    case ResolvedGlobal => false
    case ResolvedFunction(source) =>
      source <= at && HasPath(root, source) && at[|source|..] in SweptPaths(At(root, source), ShadowingDeclaration,
          name)
  }

  /** The walk up from the path ends at a scope that declares the name as a parameter or output, or defines it. */
  predicate IsBound(root: Scope, path: Path, name: string)
    requires HasPath(root, path)
  {
    match Resolve(root, path, name)
    case ResolvedGlobal => false
    case ResolvedFunction(source) => source != [] && HasPath(root, source) && Binds(At(root, source), name)
  }

  /** Two references are found from one another exactly when they resolve to the same source. */
  lemma FindsIsSameSource(root: Scope, from: Path, at: Path, name: string)
    requires HasPath(root, from) && HasPath(root, at) && IsBound(root, from, name)
    ensures Finds(root, from, at, name) <==> Resolve(root, at, name) == Resolve(root, from, name)
  {
    var source := Resolve(root, from, name).sweepSource;
    ResolveSource(root, from, name);
    BoundSweepIsExact(root, source, name, at);
  }

  /** "Same variable" is an equivalence on bound references, so the results for two binders are equal or disjoint. */
  lemma SameVariableIsEquivalence(root: Scope, a: Path, b: Path, name: string)
    requires HasPath(root, a) && HasPath(root, b) && IsBound(root, a, name) && IsBound(root, b, name)
    ensures Finds(root, a, a, name)
    ensures Finds(root, a, b, name) ==> Finds(root, b, a, name)
    ensures Finds(root, a, b, name) ==> forall at :: HasPath(root, at) ==>
            (Finds(root, a, at, name) <==> Finds(root, b, at, name))
    ensures !Finds(root, a, b, name) ==> forall at :: HasPath(root, at) ==>
            !(Finds(root, a, at, name) && Finds(root, b, at, name))
  {
    FindsIsSameSource(root, a, a, name);
    FindsIsSameSource(root, a, b, name);
    FindsIsSameSource(root, b, a, name);
    forall at | HasPath(root, at)
      ensures Finds(root, a, at, name) <==> Resolve(root, at, name) == Resolve(root, a, name)
      ensures Finds(root, b, at, name) <==> Resolve(root, at, name) == Resolve(root, b, name)
    {
      FindsIsSameSource(root, a, at, name);
      FindsIsSameSource(root, b, at, name);
    }
  }

  /** No scope swept below this one has a reference of the name. */
  ghost predicate NotMentionedBelow(scope: Scope, name: string) {
    forall rel :: rel in SweptBelow(scope, ShadowingDeclaration, 0, name) && HasPath(scope, rel) ==>
                    At(scope, rel).References(name) == []
  }

  /** Without a binder the walk up falls back on the scope of the reference itself, so a nested scope that uses
      the name is swept from outside but does not sweep back. Every reference the search finds resolves to the same
      source exactly when the source binds the name or no scope swept below it has a reference of the name. */
  lemma SweepAgreesExactlyWhenBound(root: Scope, path: Path, name: string)
    requires ValidFile(root) && HasPath(root, path) && path != [] && Resolve(root, path, name).ResolvedFunction?
    ensures var source := Resolve(root, path, name).sweepSource;
            (forall at :: HasPath(root, at) && Finds(root, path, at, name) && At(root, at).References(name) != [] ==>
                            Resolve(root, at, name) == Resolve(root, path, name)) <==>
            HasPath(root, source) && (Binds(At(root, source), name) || NotMentionedBelow(At(root, source), name))
  {
    var source := Resolve(root, path, name).sweepSource;
    ResolveSource(root, path, name);
    EnvironmentDepth(root, path, |path|, name);
    var scope := At(root, source);
    if Binds(scope, name) {
      forall at | HasPath(root, at) && Finds(root, path, at, name)
        ensures Resolve(root, at, name) == Resolve(root, path, name)
      {
        FindsIsSameSource(root, path, at, name);
      }
    } else {
      assert Environment(root, path, |path|, name) == Unbound && source == path;
      var below := SweptBelow(scope, ShadowingDeclaration, 0, name);
      if NotMentionedBelow(scope, name) {
        forall at | HasPath(root, at) && Finds(root, path, at, name) && At(root, at).References(name) != []
          ensures at == path
        {
          var rel := at[|source|..];
          assert at == source + rel && SweptPaths(scope, ShadowingDeclaration, name) == [[]] + below;
          AtConcat(root, source, rel);
        }
      } else {
        var rel :| rel in below && HasPath(scope, rel) && At(scope, rel).References(name) != [];
        AtConcat(root, path, rel);
        UnboundSweepLeavesSource(root, path, name, rel);
      }
    }
  }

  lemma UnboundSweepLeavesSource(root: Scope, path: Path, name: string, rel: Path)
    requires HasPath(root, path) && Environment(root, path, |path|, name) == Unbound
    requires rel in SweptBelow(At(root, path), ShadowingDeclaration, 0, name)
    ensures HasPath(root, path + rel) && Finds(root, path, path + rel, name)
    ensures Resolve(root, path + rel, name) != Resolve(root, path, name)
  {
    SweptBelowIsVisible(At(root, path), ShadowingDeclaration, 0, name, rel);
    SweptIsVisible(At(root, path), ShadowingDeclaration, name, rel);
    SweptScopes(root, path, name, rel);
    assert (path + rel)[|path|..] == rel && (path + rel)[..|path|] == path;
    if Resolve(root, path + rel, name) == ResolvedFunction(path) {
      EnvironmentDepth(root, path + rel, |path + rel|, name);
      EnvironmentPrefix(root, path + rel, |path|, |path|, name);
    }
  }

  /** A file shows why: a function and one nested in it use a name that nothing binds. A search from the outer use finds
      the inner one, and a search from the inner use does not find the outer one. */
  lemma UnboundIsNotSymmetric(x: Identifier, id: NamedRange) returns (root: Scope, outer: Path, inner: Path)
    ensures ValidFile(root) && HasPath(root, outer) && HasPath(root, inner)
    ensures At(root, outer).References("x") == [x] && At(root, inner).References("x") == [x]
    ensures Finds(root, outer, inner, "x") && !Finds(root, inner, outer, "x")
  {
    var nested := FunctionScope(map["x" := VariableInfo([], [x])], {}, map[], [], id, {}, {});
    var around := FunctionScope(map["x" := VariableInfo([], [x])], {}, map[], [FunctionInfo("b", Some(nested))], id, {},
                                {});
    root := GlobalScope(map[], {}, map[], [FunctionInfo("a", Some(around))]);
    outer, inner := [0], [0, 0];
    assert ValidBelow(nested) && ValidBelow(around);
    AtConcat(root, [], [0]);
    assert At(root, [0]) == around by {
      assert Child(root, 0) == around && [0][1..] == [];
    }
    AtConcat(root, [0], [0]);
    assert [0] + [0] == [0, 0] && At(around, [0]) == nested by {
      assert Child(around, 0) == nested && [0][1..] == [];
    }
    assert inner[..1] == outer && inner[..2] == inner && outer[..1] == outer;
    assert !around.Shadows("x", true) && !around.Defines("x") && !nested.Shadows("x", true) && !nested.Defines("x");
    StaysUnbound(root, outer, 1, "x");
    StaysUnbound(root, inner, 1, "x");
    StaysUnbound(root, inner, 2, "x");
    SweptScopes(root, outer, "x", [0]);
  }

  lemma StaysUnbound(root: Scope, path: Path, k: nat, name: string)
    requires HasPath(root, path) && 0 < k <= |path| && Environment(root, path, k - 1, name) == Unbound
    requires !ScopeAt(root, path, k).Shadows(name, true) && !ScopeAt(root, path, k).Defines(name)
    ensures Environment(root, path, k, name) == Unbound
  {
  }

  // ----- said of the fields of the scopes

  /** The name is an argument of the function, in or out, or the function declares it global. */
  predicate DeclaredBy(scope: Scope, name: string) {
    scope.FunctionScope? && (name in scope.inputArgs || name in scope.outputArgs || name in scope.globals)
  }

  predicate HasDefinition(scope: Scope, name: string) {
    name in scope.variables && scope.variables[name].definitions != []
  }

  lemma FieldsOfScope(root: Scope, path: Path, k: nat, name: string)
    requires ValidFile(root) && HasPath(root, path) && 0 < k <= |path|
    ensures var scope := ScopeAt(root, path, k);
            && scope.FunctionScope? && (scope.Shadows(name, true) <==> DeclaredBy(scope, name))
            && (scope.Defines(name) <==> HasDefinition(scope, name))
  {
    PrefixHasPathOnly(root, path, k);
    ValidAt(root, path[..k]);
  }

  /** The nearest function that declares the name decides: it is global there, or lives there. */
  lemma {:induction false} NearestDeclarationDecides(root: Scope, path: Path, k: nat, name: string)
    requires ValidFile(root) && HasPath(root, path) && 0 < k <= |path| && DeclaredBy(ScopeAt(root, path, k), name)
    requires forall j :: k < j <= |path| ==> !DeclaredBy(ScopeAt(root, path, j), name)
    ensures Resolve(root, path, name) ==
            if name in ScopeAt(root, path, k).globals then ResolvedGlobal else ResolvedFunction(path[..k])
  {
    hide Environment, ValidFile;
    forall j | 0 < j <= |path|
      ensures ScopeAt(root, path, j).Shadows(name, true) <==> DeclaredBy(ScopeAt(root, path, j), name)
    {
      FieldsOfScope(root, path, j, name);
    }
    EnvironmentOf(root, path, k, name);
    EnvironmentPersists(root, path, k, |path|, name);
  }

  lemma EnvironmentOf(root: Scope, path: Path, k: nat, name: string)
    requires HasPath(root, path) && 0 < k <= |path|
    ensures var scope, outer := ScopeAt(root, path, k), Environment(root, path, k - 1, name);
            Environment(root, path, k, name) ==
            if scope.Shadows(name, true) then if name in scope.globals then GlobalVariable else Scoped(k)
            else if outer == Unbound && scope.Defines(name) then Scoped(k) else outer
    ensures Environment(root, path, 0, name) == Unbound
  {
  }

  lemma {:induction false} NothingAbove(root: Scope, path: Path, k: nat, name: string)
    requires ValidFile(root) && HasPath(root, path) && k <= |path|
    requires forall j :: 0 < j <= k ==>
               !DeclaredBy(ScopeAt(root, path, j), name) && !HasDefinition(ScopeAt(root, path, j), name)
    ensures Environment(root, path, k, name) == Unbound
  {
    hide ValidFile;
    if k > 0 {
      NothingAbove(root, path, k - 1, name);
      FieldsOfScope(root, path, k, name);
    }
  }

  /** Where no function declares the name, it lives in the widest function with a definition of it, and where none has
      one, in the function of the reference. */
  lemma {:induction false} WidestDefinitionDecides(root: Scope, path: Path, name: string)
    requires ValidFile(root) && HasPath(root, path) && path != []
    requires forall j :: 0 < j <= |path| ==> !DeclaredBy(ScopeAt(root, path, j), name)
    ensures forall k :: 0 < k <= |path| && HasDefinition(ScopeAt(root, path, k), name) &&
                        (forall j :: 0 < j < k ==> !HasDefinition(ScopeAt(root, path, j), name)) ==>
                          Resolve(root, path, name) == ResolvedFunction(path[..k])
    ensures (forall j :: 0 < j <= |path| ==> !HasDefinition(ScopeAt(root, path, j), name)) ==>
              Resolve(root, path, name) == ResolvedFunction(path)
  {
    hide Environment, ValidFile;
    forall j | 0 < j <= |path| ensures !ScopeAt(root, path, j).Shadows(name, true) {
      FieldsOfScope(root, path, j, name);
    }
    forall k | 0 < k <= |path| && HasDefinition(ScopeAt(root, path, k), name) &&
               (forall j :: 0 < j < k ==> !HasDefinition(ScopeAt(root, path, j), name))
      ensures Resolve(root, path, name) == ResolvedFunction(path[..k])
    {
      NothingAbove(root, path, k - 1, name);
      FieldsOfScope(root, path, k, name);
      EnvironmentOf(root, path, k, name);
      EnvironmentPersists(root, path, k, |path|, name);
    }
    if forall j :: 0 < j <= |path| ==> !HasDefinition(ScopeAt(root, path, j), name) {
      NothingAbove(root, path, |path|, name);
    }
  }

  /** A sweep enters just the functions with none on the way down, themselves included, that declares the name. */
  lemma {:induction false} SweepStopsAtDeclarations(root: Scope, source: Path, name: string, rel: Path)
    requires ValidFile(root) && HasPath(root, source)
    ensures rel in SweptPaths(At(root, source), ShadowingDeclaration, name) <==>
            && HasPath(root, source + rel)
            && forall j :: |source| < j <= |source + rel| ==> !DeclaredBy(ScopeAt(root, source + rel, j), name)
  {
    hide ValidFile;
    SweptScopes(root, source, name, rel);
    if HasPath(root, source + rel) {
      forall j | |source| < j <= |source + rel|
        ensures ScopeAt(root, source + rel, j).Shadows(name, true) <==> DeclaredBy(ScopeAt(root, source + rel, j), name)
      {
        FieldsOfScope(root, source + rel, j, name);
      }
    }
  }
}
