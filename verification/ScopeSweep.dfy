/** What the downward sweeps collect: the identifiers of a name in a list of scopes. */
module ScopeSweep {
  import opened Options
  import opened Sequences
  import opened ScopeTree

  datatype FileScopedIdentifier = FileScopedIdentifier(uri: string, identifier: Identifier)

  /** The lists a sweep accumulates references and definitions in. A list that is not needed is None. */
  class RefsAndDefs {
    var refs: Option<seq<FileScopedIdentifier>>
    var defs: Option<seq<FileScopedIdentifier>>

    constructor (needRefs: bool, needDefs: bool)
      ensures refs == (if needRefs then Some([]) else None)
      ensures defs == (if needDefs then Some([]) else None)
    {
      refs := if needRefs then Some([]) else None;
      defs := if needDefs then Some([]) else None;
    }

    method Push(moreRefs: seq<FileScopedIdentifier>, moreDefs: seq<FileScopedIdentifier>)
      modifies this
      ensures refs == Appended(old(refs), moreRefs) && defs == Appended(old(defs), moreDefs)
    {
      refs := Appended(refs, moreRefs);
      defs := Appended(defs, moreDefs);
    }

    method PushRefs(more: seq<FileScopedIdentifier>)
      modifies this
      ensures refs == Appended(old(refs), more) && defs == old(defs)
    {
      refs := Appended(refs, more);
    }
  }

  function Appended<T>(list: Option<seq<T>>, more: seq<T>): Option<seq<T>> {
    match list
    case None => None
    case Some(items) => Some(items + more)
  }

  lemma AppendedTwice<T>(list: Option<seq<T>>, a: seq<T>, b: seq<T>)
    ensures Appended(Appended(list, a), b) == Appended(list, a + b)
  {
    if list.Some? {
      assert list.value + a + b == list.value + (a + b);
    }
  }

  datatype IdentifierKind = References | Definitions | Calls

  function IdentifiersOf(scope: Scope, kind: IdentifierKind, name: string): seq<Identifier> {
    match kind
    case References => scope.References(name)
    case Definitions => scope.Definitions(name)
    case Calls => scope.Calls(name)
  }

  function Tagged(uri: string, ids: seq<Identifier>): (tagged: seq<FileScopedIdentifier>)
    ensures |tagged| == |ids|
    ensures forall i :: 0 <= i < |ids| ==> tagged[i] == FileScopedIdentifier(uri, ids[i])
  {
    seq(|ids|, i requires 0 <= i < |ids| => FileScopedIdentifier(uri, ids[i]))
  }

  predicate AllPaths(scope: Scope, paths: seq<Path>) {
    forall i :: 0 <= i < |paths| ==> HasPath(scope, paths[i])
  }

  /** The identifiers of a name in the scopes at the given paths, scope by scope. */
  function Collected(scope: Scope, paths: seq<Path>, kind: IdentifierKind, name: string, uri: string)
    : seq<FileScopedIdentifier>
    requires AllPaths(scope, paths)
  {
    if paths == [] then []
    else
      Tagged(uri, IdentifiersOf(At(scope, paths[0]), kind, name)) + Collected(scope, paths[1..], kind, name, uri)
  }

  function Prefixed(i: nat, paths: seq<Path>): (prefixed: seq<Path>)
    ensures |prefixed| == |paths|
    ensures forall k :: 0 <= k < |paths| ==> prefixed[k] == [i] + paths[k]
  {
    seq(|paths|, k requires 0 <= k < |paths| => [i] + paths[k])
  }

  lemma {:induction false} CollectedConcat(
    scope: Scope, a: seq<Path>, b: seq<Path>, kind: IdentifierKind, name: string, uri: string
  )
    requires AllPaths(scope, a) && AllPaths(scope, b)
    ensures AllPaths(scope, a + b)
    ensures Collected(scope, a + b, kind, name, uri) ==
            Collected(scope, a, kind, name, uri) + Collected(scope, b, kind, name, uri)
  {
    hide *;
    PathsConcat(scope, a, b);
    if a == [] {
      assert a + b == b;
      CollectedNothing(scope, kind, name, uri);
      assert Collected(scope, b, kind, name, uri) == [] + Collected(scope, b, kind, name, uri);
    } else {
      assert (a + b)[0] == a[0] && (a + b)[1..] == a[1..] + b;
      CollectedStep(scope, a, kind, name, uri);
      CollectedStep(scope, a + b, kind, name, uri);
      CollectedConcat(scope, a[1..], b, kind, name, uri);
      Associative(Tagged(uri, IdentifiersOf(At(scope, a[0]), kind, name)), Collected(scope, a[1..], kind, name, uri),
                  Collected(scope, b, kind, name, uri));
    }
  }

  lemma CollectedNothing(scope: Scope, kind: IdentifierKind, name: string, uri: string)
    ensures Collected(scope, [], kind, name, uri) == []
  {
  }

  lemma PathsConcat(scope: Scope, a: seq<Path>, b: seq<Path>)
    requires AllPaths(scope, a) && AllPaths(scope, b)
    ensures AllPaths(scope, a + b)
  {
  }

  lemma CollectedStep(scope: Scope, paths: seq<Path>, kind: IdentifierKind, name: string, uri: string)
    requires paths != [] && AllPaths(scope, paths)
    ensures HasPath(scope, paths[0]) && AllPaths(scope, paths[1..])
    ensures Collected(scope, paths, kind, name, uri) ==
            Tagged(uri, IdentifiersOf(At(scope, paths[0]), kind, name)) + Collected(scope, paths[1..], kind, name, uri)
  {
  }

  lemma {:induction false} CollectedPrefixed(
    scope: Scope, i: nat, paths: seq<Path>, kind: IdentifierKind, name: string, uri: string
  )
    requires HasChild(scope, i) && AllPaths(Child(scope, i), paths)
    ensures AllPaths(scope, Prefixed(i, paths))
    ensures Collected(scope, Prefixed(i, paths), kind, name, uri) == Collected(Child(scope, i), paths, kind, name, uri)
  {
    forall k | 0 <= k < |paths| ensures HasPath(scope, Prefixed(i, paths)[k]) {
      assert ([i] + paths[k])[1..] == paths[k];
    }
    if paths != [] {
      assert ([i] + paths[0])[1..] == paths[0];
      assert Prefixed(i, paths)[1..] == Prefixed(i, paths[1..]);
      CollectedPrefixed(scope, i, paths[1..], kind, name, uri);
    }
  }

  /** What is collected is exactly what the listed scopes hold. */
  lemma {:induction false} InCollected(
    scope: Scope, paths: seq<Path>, kind: IdentifierKind, name: string, uri: string, id: Identifier
  )
    requires AllPaths(scope, paths)
    ensures FileScopedIdentifier(uri, id) in Collected(scope, paths, kind, name, uri) <==>
            exists path :: path in paths && id in IdentifiersOf(At(scope, path), kind, name)
  {
    if paths != [] {
      InCollected(scope, paths[1..], kind, name, uri, id);
      var head := Tagged(uri, IdentifiersOf(At(scope, paths[0]), kind, name));
      assert FileScopedIdentifier(uri, id) in head <==> id in IdentifiersOf(At(scope, paths[0]), kind, name) by {
        if id in IdentifiersOf(At(scope, paths[0]), kind, name) {
          var k :| 0 <= k < |IdentifiersOf(At(scope, paths[0]), kind, name)| &&
                   IdentifiersOf(At(scope, paths[0]), kind, name)[k] == id;
          assert head[k] == FileScopedIdentifier(uri, id);
        }
      }
      assert forall path :: path in paths <==> path == paths[0] || path in paths[1..];
    }
  }

  /** Said of the fields: a collected identifier is recorded under the name in one of the listed scopes, among the
      references, the definitions or the calls. */
  lemma CollectedAreRecorded(scope: Scope, paths: seq<Path>, name: string, uri: string, id: Identifier)
    requires AllPaths(scope, paths)
    ensures var collected := FileScopedIdentifier(uri, id);
            && (collected in Collected(scope, paths, References, name, uri) <==>
                exists p :: p in paths && name in At(scope, p).variables &&
                            id in At(scope, p).variables[name].references)
            && (collected in Collected(scope, paths, Definitions, name, uri) <==>
                exists p :: p in paths && name in At(scope, p).variables &&
                            id in At(scope, p).variables[name].definitions)
            && (collected in Collected(scope, paths, Calls, name, uri) <==>
                exists p :: p in paths && name in At(scope, p).functionOrUnbound &&
                            id in At(scope, p).functionOrUnbound[name])
  {
    hide Collected;
    InCollected(scope, paths, References, name, uri, id);
    InCollected(scope, paths, Definitions, name, uri, id);
    InCollected(scope, paths, Calls, name, uri, id);
  }

  // ----- sweeping down

  /** What stops a sweep from entering a function scope: a declaration that shadows a variable, or a function of
      that scope with the name looked for. */
  datatype Walls = ShadowingDeclaration | LocalFunction

  predicate Blocks(scope: Scope, walls: Walls, name: string) {
    match walls
    case ShadowingDeclaration => scope.Shadows(name, true)
    case LocalFunction => scope.HasFunction(name)
  }

  /** The scopes a sweep visits, relative to where it starts: it enters no scope that shadows the name. */
  function SweptPaths(scope: Scope, walls: Walls, name: string): seq<Path>
    decreases scope, |scope.functionScopes| + 1
  {
    [[]] + SweptBelow(scope, walls, 0, name)
  }

  function SweptBelow(scope: Scope, walls: Walls, i: nat, name: string): seq<Path>
    requires i <= |scope.functionScopes|
    decreases scope, |scope.functionScopes| - i
  {
    if i == |scope.functionScopes| then []
    else
      (if HasChild(scope, i) && !Blocks(Child(scope, i), walls, name)
       then Prefixed(i, SweptPaths(Child(scope, i), walls, name)) else [])
      + SweptBelow(scope, walls, i + 1, name)
  }

  /** No scope on the way down, the last included, shadows the name. */
  predicate Visible(scope: Scope, walls: Walls, rel: Path, name: string) {
    rel == [] ||
    (HasChild(scope, rel[0]) && !Blocks(Child(scope, rel[0]), walls, name) &&
        Visible(Child(scope, rel[0]), walls, rel[1..], name))
  }

  lemma {:induction false} SweptIsVisible(scope: Scope, walls: Walls, name: string, rel: Path)
    ensures rel in SweptPaths(scope, walls, name) <==> Visible(scope, walls, rel, name)
    decreases scope, |scope.functionScopes| + 1
  {
    assert rel in SweptPaths(scope, walls, name) <==> rel == [] || rel in SweptBelow(scope, walls, 0, name);
    SweptBelowIsVisible(scope, walls, 0, name, rel);
  }

  lemma InPrefixed(i: nat, paths: seq<Path>, rel: Path)
    ensures rel in Prefixed(i, paths) <==> rel != [] && rel[0] == i && rel[1..] in paths
  {
    if rel != [] && rel[0] == i && rel[1..] in paths {
      var k :| 0 <= k < |paths| && paths[k] == rel[1..];
      assert Prefixed(i, paths)[k] == [i] + rel[1..] == rel;
    }
  }

  lemma {:induction false} SweptBelowIsVisible(scope: Scope, walls: Walls, i: nat, name: string, rel: Path)
    requires i <= |scope.functionScopes|
    ensures rel in SweptBelow(scope, walls, i, name) <==> rel != [] && rel[0] >= i && Visible(scope, walls, rel, name)
    decreases scope, |scope.functionScopes| - i
  {
    if i < |scope.functionScopes| {
      SweptBelowIsVisible(scope, walls, i + 1, name, rel);
      if HasChild(scope, i) && !Blocks(Child(scope, i), walls, name) {
        InPrefixed(i, SweptPaths(Child(scope, i), walls, name), rel);
        if rel != [] && rel[0] == i {
          SweptIsVisible(Child(scope, i), walls, name, rel[1..]);
        }
      }
    }
  }

  lemma {:induction false} VisibleHasPath(scope: Scope, walls: Walls, rel: Path, name: string)
    requires Visible(scope, walls, rel, name)
    ensures HasPath(scope, rel)
  {
    if rel != [] {
      VisibleHasPath(Child(scope, rel[0]), walls, rel[1..], name);
    }
  }

  lemma SweptHavePaths(scope: Scope, walls: Walls, name: string)
    ensures AllPaths(scope, SweptPaths(scope, walls, name))
  {
    forall i | 0 <= i < |SweptPaths(scope, walls, name)| ensures HasPath(scope, SweptPaths(scope, walls, name)[i]) {
      SweptIsVisible(scope, walls, name, SweptPaths(scope, walls, name)[i]);
      VisibleHasPath(scope, walls, SweptPaths(scope, walls, name)[i], name);
    }
  }

  lemma SweptBelowHavePaths(scope: Scope, walls: Walls, i: nat, name: string)
    requires i <= |scope.functionScopes|
    ensures AllPaths(scope, SweptBelow(scope, walls, i, name))
  {
    forall k | 0 <= k < |SweptBelow(scope, walls, i, name)| ensures HasPath(scope,
        SweptBelow(scope, walls, i, name)[k]) {
      SweptBelowIsVisible(scope, walls, i, name, SweptBelow(scope, walls, i, name)[k]);
      VisibleHasPath(scope, walls, SweptBelow(scope, walls, i, name)[k], name);
    }
  }

  /** What one sweep collects from a scope and the scopes it reaches. */
  function Swept(scope: Scope, walls: Walls, kind: IdentifierKind, name: string,
                 uri: string): seq<FileScopedIdentifier> {
    SweptHavePaths(scope, walls, name);
    Collected(scope, SweptPaths(scope, walls, name), kind, name, uri)
  }

  /** What the sweep has left to collect before it looks at function i of a scope. */
  function SweptFrom(scope: Scope, walls: Walls, i: nat, kind: IdentifierKind, name: string,
                     uri: string): seq<FileScopedIdentifier>
    requires i <= |scope.functionScopes|
  {
    SweptBelowHavePaths(scope, walls, i, name);
    Collected(scope, SweptBelow(scope, walls, i, name), kind, name, uri)
  }

  lemma SweptStarts(
    scope: Scope, walls: Walls, list: Option<seq<FileScopedIdentifier>>, kind: IdentifierKind, name: string, uri: string
  )
    ensures Appended(list, Swept(scope, walls, kind, name, uri)) ==
            Appended(Appended(list, Tagged(uri, IdentifiersOf(scope, kind, name))),
                SweptFrom(scope, walls, 0, kind, name, uri))
  {
    SweptHavePaths(scope, walls, name);
    SweptBelowHavePaths(scope, walls, 0, name);
    CollectedConcat(scope, [[]], SweptBelow(scope, walls, 0, name), kind, name, uri);
    var own := Tagged(uri, IdentifiersOf(scope, kind, name));
    assert Collected(scope, [[]], kind, name, uri) == own;
    AppendedTwice(list, own, SweptFrom(scope, walls, 0, kind, name, uri));
  }

  lemma SweptStep(
    scope: Scope, walls: Walls, i: nat, list: Option<seq<FileScopedIdentifier>>, kind: IdentifierKind, name: string,
        uri: string
  )
    requires i < |scope.functionScopes|
    ensures Appended(list, SweptFrom(scope, walls, i, kind, name, uri)) ==
            Appended(
              if HasChild(scope, i) && !Blocks(Child(scope, i), walls, name)
              then Appended(list, Swept(Child(scope, i), walls, kind, name, uri)) else list,
              SweptFrom(scope, walls, i + 1, kind, name, uri))
  {
    SweptBelowHavePaths(scope, walls, i, name);
    SweptBelowHavePaths(scope, walls, i + 1, name);
    if HasChild(scope, i) && !Blocks(Child(scope, i), walls, name) {
      var inner := SweptPaths(Child(scope, i), walls, name);
      SweptHavePaths(Child(scope, i), walls, name);
      CollectedPrefixed(scope, i, inner, kind, name, uri);
      CollectedConcat(scope, Prefixed(i, inner), SweptBelow(scope, walls, i + 1, name), kind, name, uri);
      AppendedTwice(list, Swept(Child(scope, i), walls, kind, name, uri),
          SweptFrom(scope, walls, i + 1, kind, name, uri));
    } else {
      assert SweptBelow(scope, walls, i, name) == SweptBelow(scope, walls, i + 1, name);
    }
  }

  lemma SweptEnds(
    scope: Scope, walls: Walls, list: Option<seq<FileScopedIdentifier>>, kind: IdentifierKind, name: string, uri: string
  )
    ensures Appended(list, SweptFrom(scope, walls, |scope.functionScopes|, kind, name, uri)) == list
  {
    if list.Some? {
      assert list.value + [] == list.value;
    }
  }
}
