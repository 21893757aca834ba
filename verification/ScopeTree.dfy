/** The scope tree of one parsed file: nested functions below a global scope.

    The tree is built once and only read afterwards, so a scope is a value. A scope is named by
    its path, the positions of the functions from the global scope (path []) down to it; the
    parent of a function scope is its path without the last position.

    A file without class information is modelled, so no function is a method.
 */
module ScopeTree {
  import opened Options
  import opened Ranges

  datatype NamedRange = NamedRange(name: string, range: Range)

  /** An identifier such as a.b.c, split at its dots. */
  datatype Identifier = Identifier(components: seq<NamedRange>)

  datatype VariableInfo = VariableInfo(definitions: seq<Identifier>, references: seq<Identifier>)

  /** A function of a scope. A prototype has a name and no scope. */
  datatype FunctionInfo = FunctionInfo(name: string, functionScope: Option<Scope>)

  datatype Scope =
    | GlobalScope(variables: map<string, VariableInfo>, globals: set<string>,
                  functionOrUnbound: map<string, seq<Identifier>>, functionScopes: seq<FunctionInfo>)
    | FunctionScope(variables: map<string, VariableInfo>, globals: set<string>,
                    functionOrUnbound: map<string, seq<Identifier>>, functionScopes: seq<FunctionInfo>,
                    declarationNameId: NamedRange, inputArgs: set<string>, outputArgs: set<string>)
  {
    function References(name: string): seq<Identifier> {
      if name in variables then variables[name].references else []
    }

    function Definitions(name: string): seq<Identifier> {
      if name in variables then variables[name].definitions else []
    }

    function Calls(name: string): seq<Identifier> {
      if name in functionOrUnbound then functionOrUnbound[name] else []
    }

    predicate IsParameter(name: string) {
      FunctionScope? && (name in inputArgs || name in outputArgs)
    }

    /** A function parameter or global declaration hides the variables of broader scopes. */
    predicate Shadows(name: string, checkForGlobals: bool) {
      IsParameter(name) || (checkForGlobals && name in globals)
    }

    predicate Defines(name: string) {
      Definitions(name) != []
    }

    predicate HasFunction(name: string) {
      exists i :: 0 <= i < |functionScopes| && functionScopes[i].name == name
    }

    predicate DeclaresFunction(name: string) {
      exists i :: 0 <= i < |functionScopes| && functionScopes[i].name == name && functionScopes[i].functionScope.Some?
    }
  }

  type Path = seq<nat>

  /** Every function scope below the root is a FunctionScope, and the names of one scope's functions
      differ, since they are the keys of a map. */
  ghost predicate ValidBelow(scope: Scope) {
    && (forall i, j :: 0 <= i < j < |scope.functionScopes| ==>
          scope.functionScopes[i].name != scope.functionScopes[j].name)
    && (forall i :: 0 <= i < |scope.functionScopes| && scope.functionScopes[i].functionScope.Some? ==>
          && scope.functionScopes[i].functionScope.value.FunctionScope?
          && ValidBelow(scope.functionScopes[i].functionScope.value))
  }

  ghost predicate ValidFile(root: Scope) {
    root.GlobalScope? && ValidBelow(root)
  }

  predicate HasChild(scope: Scope, i: nat) {
    i < |scope.functionScopes| && scope.functionScopes[i].functionScope.Some?
  }

  function Child(scope: Scope, i: nat): Scope
    requires HasChild(scope, i)
  {
    scope.functionScopes[i].functionScope.value
  }

  predicate HasPath(scope: Scope, path: Path) {
    path == [] || (HasChild(scope, path[0]) && HasPath(Child(scope, path[0]), path[1..]))
  }

  function At(scope: Scope, path: Path): Scope
    requires HasPath(scope, path)
  {
    if path == [] then scope else At(Child(scope, path[0]), path[1..])
  }

  /** Following a path in two steps is following it in one. */
  lemma {:induction false} AtConcat(scope: Scope, path: Path, rel: Path)
    requires HasPath(scope, path)
    ensures HasPath(scope, path + rel) <==> HasPath(At(scope, path), rel)
    ensures HasPath(scope, path + rel) ==> At(scope, path + rel) == At(At(scope, path), rel)
  {
    if path == [] {
      assert path + rel == rel;
    } else {
      assert (path + rel)[0] == path[0] && (path + rel)[1..] == path[1..] + rel;
      AtConcat(Child(scope, path[0]), path[1..], rel);
    }
  }

  lemma PrefixHasPath(scope: Scope, path: Path, k: nat)
    requires HasPath(scope, path) && k <= |path|
    ensures HasPath(scope, path[..k])
    ensures HasPath(At(scope, path[..k]), path[k..]) && At(scope, path) == At(At(scope, path[..k]), path[k..])
  {
    PrefixHasPathOnly(scope, path, k);
    assert path[..k] + path[k..] == path;
    AtConcat(scope, path[..k], path[k..]);
  }

  lemma {:induction false} PrefixHasPathOnly(scope: Scope, path: Path, k: nat)
    requires HasPath(scope, path) && k <= |path|
    ensures HasPath(scope, path[..k])
  {
    if k > 0 {
      PrefixHasPathOnly(Child(scope, path[0]), path[1..], k - 1);
      assert path[..k][1..] == path[1..][..k - 1];
    }
  }

  lemma {:induction false} ValidAt(scope: Scope, path: Path)
    requires ValidBelow(scope) && HasPath(scope, path)
    ensures ValidBelow(At(scope, path))
    ensures path != [] ==> At(scope, path).FunctionScope?
  {
    if path != [] {
      ValidAt(Child(scope, path[0]), path[1..]);
    }
  }
}
