/** From the raw references and definitions of a search to the locations it returns: narrowing dotted identifiers
    to the selected component, adding declarations, and formatting for the kind of request.
 */
module SymbolSearch {
  import opened Options
  import opened Ranges
  import opened ScopeTree
  import opened ScopeSweep
  import opened ScopeVariables
  import opened ScopeGlobals
  import opened ScopeFunctions

  datatype ResultType = ReferencesOnly | DefinitionsOnly | All

  /** A list the request did not ask for is None. */
  datatype SearchResult = SearchResult(references: Option<seq<Location>>, definitions: Option<seq<Location>>)

  /** A search fails, which is None, when a list that is asked for does. */
  function Wanted(resultType: ResultType, refs: Option<seq<Location>>, defs: Option<seq<Location>>)
    : Option<SearchResult> {
    if (resultType != DefinitionsOnly && refs.None?) || (resultType != ReferencesOnly && defs.None?) then None
    else
      Some(SearchResult(if resultType == DefinitionsOnly then None else refs,
                        if resultType == ReferencesOnly then None else defs))
  }

  /** A request gets just the lists of its kind. */
  lemma WantedLists(refs: seq<Location>, defs: seq<Location>)
    ensures Wanted(ReferencesOnly, Some(refs), Some(defs)) == Some(SearchResult(Some(refs), None))
    ensures Wanted(DefinitionsOnly, Some(refs), Some(defs)) == Some(SearchResult(None, Some(defs)))
    ensures Wanted(All, Some(refs), Some(defs)) == Some(SearchResult(Some(refs), Some(defs)))
    ensures Wanted(ReferencesOnly, None, Some(defs)) == Wanted(All, None, Some(defs)) == None
    ensures Wanted(DefinitionsOnly, Some(refs), None) == Wanted(All, Some(refs), None) == None
  {
  }

  // ----- narrowing

  /** The components compared: a dot-syntax use of a method or property drops its first component, the object. */
  function Adjusted(components: seq<NamedRange>, ofMember: bool): seq<NamedRange> {
    if ofMember && |components| > 1 then components[1..] else components
  }

  /** The identifier agrees with the selected one from the second component up to the selected one. */
  predicate Matches(id: Identifier, components: seq<NamedRange>, selected: nat, ofMember: bool)
    requires selected < |components|
  {
    var own := Adjusted(id.components, ofMember);
    selected < |own| && forall i :: 1 <= i <= selected ==> own[i].name == components[i].name
  }

  function Narrowed(ids: seq<FileScopedIdentifier>, components: seq<NamedRange>, selected: nat, ofMember: bool)
    : seq<Location>
    requires selected < |components|
  {
    if ids == [] then []
    else
      var rest := Narrowed(ids[..|ids| - 1], components, selected, ofMember);
      var last := ids[|ids| - 1];
      if Matches(last.identifier, components, selected, ofMember) then
        rest + [Location(last.uri, Adjusted(last.identifier.components, ofMember)[selected].range)]
      else rest
  }

  /** The predicate-level meaning of narrowing: one location for every matching identifier. */
  lemma {:induction false} InNarrowed(
    ids: seq<FileScopedIdentifier>, components: seq<NamedRange>, selected: nat, ofMember: bool, location: Location
  )
    requires selected < |components|
    ensures location in Narrowed(ids, components, selected, ofMember) <==>
            exists id :: id in ids && Matches(id.identifier, components, selected, ofMember) &&
                         location == Location(id.uri, Adjusted(id.identifier.components, ofMember)[selected].range)
  {
    if ids != [] {
      var front, last := ids[..|ids| - 1], ids[|ids| - 1];
      InNarrowed(front, components, selected, ofMember, location);
      assert ids == front + [last];
      assert forall id :: id in ids <==> id in front || id == last;
    }
  }

  /** Narrowing to a component before the first one fails at the first identifier. */
  function NarrowedFrom(ids: seq<FileScopedIdentifier>, components: seq<NamedRange>, selected: int, ofMember: bool)
    : Option<seq<Location>>
    requires selected < |components|
  {
    if selected >= 0 then Some(Narrowed(ids, components, selected, ofMember))
    else if ids == [] then Some([]) else None
  }

  method DottedIdentifierNarrow(
    unnarrowedIds: seq<FileScopedIdentifier>, components: seq<NamedRange>, selected: int, areMethodOrPropertyRefs: bool
  ) returns (result: Option<seq<Location>>)
    requires selected < |components|
    ensures result == NarrowedFrom(unnarrowedIds, components, selected, areMethodOrPropertyRefs)
  {
    var finalLocations := [];
    for n := 0 to |unnarrowedIds|
      invariant n > 0 ==> selected >= 0
      invariant selected >= 0 ==>
                  finalLocations == Narrowed(unnarrowedIds[..n], components, selected, areMethodOrPropertyRefs)
      invariant n == 0 ==> finalLocations == []
    {
      var ref := unnarrowedIds[n];
      var own := Adjusted(ref.identifier.components, areMethodOrPropertyRefs);
      assert unnarrowedIds[..n + 1][..n] == unnarrowedIds[..n];
      if selected < |own| {
        var isMatch := true;
        var i := 1;
        while i <= selected
          invariant 1 <= i
          invariant isMatch && selected >= 0 ==>
                      i <= selected + 1 && forall j :: 1 <= j < i ==> own[j].name == components[j].name
          invariant isMatch || selected >= 0
          invariant selected >= 0 ==>
                      !Matches(ref.identifier, components, selected, areMethodOrPropertyRefs) || isMatch
        {
          if own[i].name != components[i].name {
            isMatch := false;
            break;
          }
          i := i + 1;
        }
        if isMatch {
          if selected < 0 {
            return None;
          }
          finalLocations := finalLocations + [Location(ref.uri, own[selected].range)];
        }
      }
    }
    assert unnarrowedIds[..|unnarrowedIds|] == unnarrowedIds;
    result := Some(finalLocations);
  }

  // ----- formatting, by kind of identifier

  /** What was selected: a component of a reference, or a declaration. */
  datatype ScopedId =
    | Selection(components: seq<NamedRange>, selected: nat)
    | Declaration(id: NamedRange)

  predicate ValidSelection(id: ScopedId) {
    id.Selection? ==> id.selected < |id.components|
  }

  /** The raw result of a search, by what the identifier turned out to be. */
  datatype RawResult =
    | OfVariable(refs: seq<FileScopedIdentifier>, defs: seq<FileScopedIdentifier>)
    | OfFunctionlike(refs: seq<FileScopedIdentifier>, declarations: seq<Location>, isMethod: bool)
    | OfProperty(refs: seq<FileScopedIdentifier>, defs: seq<FileScopedIdentifier>, declaration: Location)
  {
    predicate OfMember() {
      OfProperty? || (OfFunctionlike? && isMethod)
    }

    /** Whether the first component of the selected identifier is taken for the object that a member belongs to. */
    predicate DropsFirst(components: seq<NamedRange>) {
      OfProperty? || (OfMember() && |components| > 1)
    }

    function DeclaredAt(selected: int): seq<Location> {
      if selected != 0 then []
      else
        match this
        case OfVariable(_, _) => []
        case OfFunctionlike(_, declarations, _) => declarations
        case OfProperty(_, _, declaration) => [declaration]
    }
  }

  function AdjustedComponents(id: ScopedId, raw: RawResult): seq<NamedRange>
    requires ValidSelection(id)
  {
    match id
    case Declaration(name) => [name]
    case Selection(components, _) => if raw.DropsFirst(components) then components[1..] else components
  }

  /** The index is -1 when the component that is dropped is the selected one. */
  function AdjustedSelected(id: ScopedId, raw: RawResult): (selected: int)
    requires ValidSelection(id)
    ensures -1 <= selected < |AdjustedComponents(id, raw)|
  {
    match id
    case Declaration(_) => 0
    case Selection(components, selected) => if raw.DropsFirst(components) then selected - 1 else selected
  }

  function NarrowedFor(ids: seq<FileScopedIdentifier>, id: ScopedId, raw: RawResult): Option<seq<Location>>
    requires ValidSelection(id)
  {
    var narrowed := NarrowedFrom(ids, AdjustedComponents(id, raw), AdjustedSelected(id, raw), raw.OfMember());
    if narrowed.None? then None else Some(narrowed.value + raw.DeclaredAt(AdjustedSelected(id, raw)))
  }

  function FinalReferences(raw: RawResult, id: ScopedId): Option<seq<Location>>
    requires ValidSelection(id)
  {
    NarrowedFor(raw.refs, id, raw)
  }

  function FinalDefinitions(raw: RawResult, id: ScopedId): Option<seq<Location>>
    requires ValidSelection(id)
  {
    if raw.OfFunctionlike? then Some(raw.DeclaredAt(AdjustedSelected(id, raw))) else NarrowedFor(raw.defs, id, raw)
  }

  /** Narrows, adds declarations and formats. What a request does not want is not collected either, so its raw list
      is ignored; the lists a request does return do not depend on which other list it wants. */
  method NarrowCombineAndFormat(raw: RawResult, id: ScopedId, resultType: ResultType)
    returns (result: Option<SearchResult>)
    requires ValidSelection(id)
    ensures result == Wanted(resultType, FinalReferences(raw, id), FinalDefinitions(raw, id))
  {
    var components, selected := AdjustedComponents(id, raw), AdjustedSelected(id, raw);
    var declared := raw.DeclaredAt(selected);
    var finalRefs, finalDefs := None, None;
    if resultType != DefinitionsOnly {
      var narrowed := DottedIdentifierNarrow(raw.refs, components, selected, raw.OfMember());
      if narrowed.None? {
        return None;
      }
      finalRefs := Some(narrowed.value + declared);
    }
    if resultType != ReferencesOnly {
      if raw.OfFunctionlike? {
        finalDefs := Some(declared);
      } else {
        var narrowed := DottedIdentifierNarrow(raw.defs, components, selected, raw.OfMember());
        if narrowed.None? {
          return None;
        }
        finalDefs := Some(narrowed.value + declared);
      }
    }
    result := Some(SearchResult(finalRefs, finalDefs));
  }

  // ----- said of the components themselves

  /** How many components in front name the object that a member belongs to. */
  function ObjectPart(isMember: bool, count: nat): nat {
    if isMember && count > 1 then 1 else 0
  }

  /** An identifier agrees in name with the selected one, after the first component behind the object, up to the
      selected component, and that is where the location is. */
  predicate AgreesUpTo(ref: FileScopedIdentifier, isMember: bool, components: seq<NamedRange>, skipped: nat,
                       selected: nat, location: Location)
    requires skipped <= selected < |components|
  {
    var own := ref.identifier.components[ObjectPart(isMember, |ref.identifier.components|)..];
    var wanted, at := components[skipped..], selected - skipped;
    && at < |own| && location == Location(ref.uri, own[at].range)
    && forall i :: 1 <= i <= at ==> own[i].name == wanted[i].name
  }

  lemma {:induction false} NarrowedAgree(
    ids: seq<FileScopedIdentifier>, components: seq<NamedRange>, skipped: nat, selected: nat, isMember: bool,
    location: Location
  )
    requires skipped <= selected < |components|
    ensures location in Narrowed(ids, components[skipped..], selected - skipped, isMember) <==>
            exists ref :: ref in ids && AgreesUpTo(ref, isMember, components, skipped, selected, location)
  {
    var rest, at := components[skipped..], selected - skipped;
    InNarrowed(ids, rest, at, isMember, location);
    forall ref: FileScopedIdentifier
      ensures Adjusted(ref.identifier.components, isMember) ==
              ref.identifier.components[ObjectPart(isMember, |ref.identifier.components|)..]
    {
    }
  }

  /** What was selected: the components, the selected one, and how many name the object. */
  function SelectedIn(raw: RawResult, id: ScopedId): (seq<NamedRange>, nat, nat)
    requires ValidSelection(id)
  {
    match id
    case Declaration(name) => ([name], 0, 0)
    case Selection(components, selected) =>
      (components, selected,
       if raw.OfProperty? || (raw.OfFunctionlike? && raw.isMethod && |components| > 1) then 1 else 0)
  }

  /** The references of a search are those that agree with the selected component, and the declarations where it is the
      first one behind the object. The definitions of a function or method are its declarations and of others those
      among their definitions that agree; a property's declaration is added to both lists. For any later component no
      declaration is returned. */
  lemma ReturnedExactly(raw: RawResult, id: ScopedId, location: Location)
    requires ValidSelection(id)
    requires var (components, selected, skipped) := SelectedIn(raw, id); skipped <= selected
    ensures var (components, selected, skipped) := SelectedIn(raw, id);
            var isMember := raw.OfProperty? || (raw.OfFunctionlike? && raw.isMethod);
            var refs, defs := FinalReferences(raw, id), FinalDefinitions(raw, id);
            var declares := (raw.OfFunctionlike? && location in raw.declarations) ||
                            (raw.OfProperty? && location == raw.declaration);
            var isDeclaration := selected == skipped && declares;
            var agrees := exists ref :: ref in raw.refs &&
                                        AgreesUpTo(ref, isMember, components, skipped, selected, location);
            var defines := !raw.OfFunctionlike? &&
                           exists def :: def in raw.defs &&
                                         AgreesUpTo(def, isMember, components, skipped, selected, location);
            && refs.Some? && defs.Some?
            && (location in refs.value <==> isDeclaration || agrees)
            && (location in defs.value <==> isDeclaration || defines)
            && (raw.OfFunctionlike? ==> defs.value == if selected == skipped then raw.declarations else [])
  {
    hide AgreesUpTo, Narrowed;
    var (components, selected, skipped) := SelectedIn(raw, id);
    var isMember := raw.OfProperty? || (raw.OfFunctionlike? && raw.isMethod);
    assert components[0..] == components;
    assert AdjustedComponents(id, raw) == components[skipped..] && AdjustedSelected(id, raw) == selected - skipped;
    NarrowedAgree(raw.refs, components, skipped, selected, isMember, location);
    if !raw.OfFunctionlike? {
      NarrowedAgree(raw.defs, components, skipped, selected, isMember, location);
    }
  }

  /** The selected component is the one that is dropped, so there is none to narrow to. */
  predicate SelectsDropped(raw: RawResult, id: ScopedId) {
    id.Selection? && id.selected == 0 && raw.DropsFirst(id.components)
  }

  /** A search fails exactly when the component that is dropped is selected and there is something to narrow. */
  lemma SearchFailsExactly(raw: RawResult, id: ScopedId, resultType: ResultType)
    requires ValidSelection(id)
    ensures Wanted(resultType, FinalReferences(raw, id), FinalDefinitions(raw, id)).None? <==>
            SelectsDropped(raw, id) &&
            ((resultType != DefinitionsOnly && raw.refs != []) ||
             (resultType != ReferencesOnly && !raw.OfFunctionlike? && raw.defs != []))
  {
  }

  predicate AreAmong(defs: seq<Location>, refs: seq<Location>) {
    forall location :: location in defs ==> location in refs
  }

  /** For every kind and selected component both lists are there and the definitions are among the references, if and
      only if the component that is dropped is not selected, or there is nothing to narrow. */
  lemma DefinitionsAmongReferences(raw: RawResult, id: ScopedId)
    requires ValidSelection(id) && (!raw.OfFunctionlike? ==> forall d :: d in raw.defs ==> d in raw.refs)
    ensures FinalReferences(raw, id).Some? && FinalDefinitions(raw, id).Some? &&
            AreAmong(FinalDefinitions(raw, id).value, FinalReferences(raw, id).value) <==>
            !SelectsDropped(raw, id) || raw.refs == []
  {
    var components, selected := AdjustedComponents(id, raw), AdjustedSelected(id, raw);
    if selected >= 0 && !raw.OfFunctionlike? {
      forall location | location in Narrowed(raw.defs, components, selected, raw.OfMember())
        ensures location in Narrowed(raw.refs, components, selected, raw.OfMember())
      {
        InNarrowed(raw.defs, components, selected, raw.OfMember(), location);
        InNarrowed(raw.refs, components, selected, raw.OfMember(), location);
      }
    }
    if !raw.OfFunctionlike? && raw.refs == [] && raw.defs != [] {
      assert raw.defs[0] in raw.refs;
    }
  }

  /** The call of a method with the object as its argument and then a dot, as in area(shape).unit: the method name is
      dropped as if it were the object, and a search for it fails. */
  lemma DottedCallFails(call: Identifier, uri: string, declaration: Location)
    requires |call.components| == 2
    ensures var raw := OfFunctionlike([FileScopedIdentifier(uri, call)], [declaration], true);
            Wanted(All, FinalReferences(raw, Selection(call.components, 0)),
                   FinalDefinitions(raw, Selection(call.components, 0))).None?
  {
  }

  // ----- variables, from the clicked identifier to the result

  predicate DefinitionsRecordedAsReferences(scope: Scope) {
    forall name :: name in scope.variables ==>
                     forall d :: d in scope.Definitions(name) ==> d in scope.References(name)
  }

  function RawVariable(root: Scope, path: Path, kind: IdentifierKind, name: string,
                       uri: string): seq<FileScopedIdentifier>
    requires HasPath(root, path)
  {
    if path == [] then
      if name in root.globals then CollectedGlobals(root, kind, name, uri)
      else Tagged(uri, IdentifiersOf(root, kind, name))
    else
      match Resolve(root, path, name)
      case ResolvedGlobal => CollectedGlobals(root, kind, name, uri)
      case ResolvedFunction(source) =>
        ResolveSource(root, path, name);
        Swept(At(root, source), ShadowingDeclaration, kind, name, uri)
  }

  /** Where a search for a variable looks: at script level, in the scopes of the global sweep, or in those swept from
      the source that the walk up ends at. */
  ghost predicate Searches(root: Scope, path: Path, name: string, at: Path)
    requires HasPath(root, path)
  {
    if path == [] && name !in root.globals then at == []
    else if path == [] || Resolve(root, path, name).ResolvedGlobal? then at in GlobalPaths(root, name)
    else
      var source := Resolve(root, path, name).sweepSource;
      source <= at && HasPath(root, source) &&
      at[|source|..] in SweptPaths(At(root, source), ShadowingDeclaration, name)
  }

  /** Said of the fields: the raw lists of a variable are what the scopes searched record under its name. */
  lemma RawAreRecorded(root: Scope, path: Path, name: string, uri: string, id: Identifier)
    requires HasPath(root, path)
    ensures var refs := RawVariable(root, path, References, name, uri);
            FileScopedIdentifier(uri, id) in refs <==>
            exists at :: Searches(root, path, name, at) && HasPath(root, at) &&
                         name in At(root, at).variables && id in At(root, at).variables[name].references
    ensures var defs := RawVariable(root, path, Definitions, name, uri);
            FileScopedIdentifier(uri, id) in defs <==>
            exists at :: Searches(root, path, name, at) && HasPath(root, at) &&
                         name in At(root, at).variables && id in At(root, at).variables[name].definitions
  {
    RawIn(root, path, References, name, uri, id);
    RawIn(root, path, Definitions, name, uri, id);
  }

  lemma RawIn(root: Scope, path: Path, kind: IdentifierKind, name: string, uri: string, id: Identifier)
    requires HasPath(root, path)
    ensures FileScopedIdentifier(uri, id) in RawVariable(root, path, kind, name, uri) <==>
            exists at :: Searches(root, path, name, at) && HasPath(root, at) &&
                         id in IdentifiersOf(At(root, at), kind, name)
  {
    hide IdentifiersOf, SweptPaths, GlobalPaths, Collected;
    if path == [] && name !in root.globals {
      OnlyRoot(root, kind, name, uri);
      InCollected(root, [[]], kind, name, uri, id);
    } else if path == [] || Resolve(root, path, name).ResolvedGlobal? {
      GlobalPathsAreThere(root, name);
      InCollected(root, GlobalPaths(root, name), kind, name, uri, id);
      forall at | at in GlobalPaths(root, name) ensures HasPath(root, at) {
        var k :| 0 <= k < |GlobalPaths(root, name)| && GlobalPaths(root, name)[k] == at;
      }
    } else {
      ResolveSource(root, path, name);
      var source := Resolve(root, path, name).sweepSource;
      var scope, paths := At(root, source), SweptPaths(At(root, source), ShadowingDeclaration, name);
      SweptHavePaths(scope, ShadowingDeclaration, name);
      InCollected(scope, paths, kind, name, uri, id);
      forall rel | rel in paths
        ensures Searches(root, path, name, source + rel) && HasPath(root, source + rel) && HasPath(scope, rel) &&
                At(root, source + rel) == At(scope, rel)
      {
        var k :| 0 <= k < |paths| && paths[k] == rel;
        AtConcat(root, source, rel);
        assert (source + rel)[|source|..] == rel;
      }
      forall at | Searches(root, path, name, at) && HasPath(root, at)
        ensures at[|source|..] in paths && HasPath(scope, at[|source|..]) &&
                At(root, at) == At(scope, at[|source|..])
      {
        AtConcat(root, source, at[|source|..]);
        assert source + at[|source|..] == at;
      }
    }
  }

  lemma OnlyRoot(root: Scope, kind: IdentifierKind, name: string, uri: string)
    ensures AllPaths(root, [[]])
    ensures Collected(root, [[]], kind, name, uri) == Tagged(uri, IdentifiersOf(root, kind, name))
  {
  }

  lemma GlobalPathsAreThere(root: Scope, name: string)
    ensures AllPaths(root, GlobalPaths(root, name))
  {
    GlobalBelowHasPaths(root, Undeclared, 0, name);
  }

  /** The raw lists that the kind of result needs. */
  method FindVarSourcedRefsOrDefsHelper(
    root: Scope, path: Path, name: string, uri: string, resultType: ResultType
  ) returns (refs: Option<seq<FileScopedIdentifier>>, defs: Option<seq<FileScopedIdentifier>>)
    requires ValidFile(root) && HasPath(root, path)
    ensures refs == if resultType == DefinitionsOnly then None else Some(RawVariable(root, path, References, name, uri))
    ensures defs == if resultType == ReferencesOnly then None else Some(RawVariable(root, path, Definitions, name, uri))
  {
    hide CollectedGlobals, Swept, Resolve, HasPath, ValidFile, Tagged, At;
    var acc := new RefsAndDefs(resultType != DefinitionsOnly, resultType != ReferencesOnly);
    if path == [] {
      if name in root.globals {
        SweepAndAccumulateGlobalVarRefsOrDefs(acc, root, name, uri);
      } else {
        acc.Push(Tagged(uri, root.References(name)), Tagged(uri, root.Definitions(name)));
      }
    } else {
      var resolution := FindSweepSource(root, path, name);
      if resolution.ResolvedGlobal? {
        SweepAndAccumulateGlobalVarRefsOrDefs(acc, root, name, uri);
      } else {
        ResolveSource(root, path, name);
        SweepAndAccumulateVarRefsOrDefs(acc, At(root, resolution.sweepSource), name, uri);
      }
    }
    refs, defs := acc.refs, acc.defs;
    ghost var allRefs := RawVariable(root, path, References, name, uri);
    ghost var allDefs := RawVariable(root, path, Definitions, name, uri);
    assert [] + allRefs == allRefs && [] + allDefs == allDefs;
  }

  method FindVarSourcedRefsOrDefs(
    root: Scope, path: Path, id: ScopedId, uri: string, resultType: ResultType
  ) returns (result: Option<SearchResult>)
    requires ValidFile(root) && HasPath(root, path) && id.Selection? && ValidSelection(id)
    ensures var name := id.components[0].name;
            var raw := OfVariable(RawVariable(root, path, References, name, uri),
                RawVariable(root, path, Definitions, name, uri));
            result.Some? && result == Wanted(resultType, FinalReferences(raw, id), FinalDefinitions(raw, id))
  {
    hide RawVariable, HasPath, ValidFile;
    var refs, defs := FindVarSourcedRefsOrDefsHelper(root, path, id.components[0].name, uri, resultType);
    result := NarrowCombineAndFormat(OfVariable(refs.GetOr([]), defs.GetOr([])), id, resultType);
  }

  /** A search returns the component it was started on, except for a global that the global sweep misses. */
  lemma {:induction false} SearchReturnsItsOwnReference(root: Scope, path: Path, own: Identifier, selected: nat,
                                                        uri: string)
    requires ValidFile(root) && HasPath(root, path) && selected < |own.components|
    requires own in At(root, path).References(own.components[0].name)
    requires !(ResolvesGlobal(root, path, own.components[0].name) &&
               GlobalThenParameter(root, path, |path|, own.components[0].name))
    ensures var name := own.components[0].name;
            var raw := OfVariable(RawVariable(root, path, References, name, uri),
                RawVariable(root, path, Definitions, name, uri));
            var found := FinalReferences(raw, Selection(own.components, selected));
            found.Some? && Location(uri, own.components[selected].range) in found.value
  {
    var name := own.components[0].name;
    var refs := RawVariable(root, path, References, name, uri);
    assert FileScopedIdentifier(uri, own) in refs by {
      if ResolvesGlobal(root, path, name) {
        GlobalSweepIsExact(root, path, name);
        GlobalBelowHasPaths(root, Undeclared, 0, name);
        InCollected(root, GlobalPaths(root, name), References, name, uri, own);
      } else if path == [] {
        var k :| 0 <= k < |root.References(name)| && root.References(name)[k] == own;
        assert Tagged(uri, root.References(name))[k] == FileScopedIdentifier(uri, own);
      } else {
        SweepContainsReference(root, path, name);
        var source := Resolve(root, path, name).sweepSource;
        assert path == source + path[|source|..];
        AtConcat(root, source, path[|source|..]);
        SweptHavePaths(At(root, source), ShadowingDeclaration, name);
        InCollected(At(root, source), SweptPaths(At(root, source), ShadowingDeclaration, name), References, name, uri,
            own);
      }
    }
    InNarrowed(refs, own.components, selected, false, Location(uri, own.components[selected].range));
    assert Matches(own, own.components, selected, false);
  }

  /** Where every scope records a definition as a reference too, so does every raw result of a variable. */
  lemma RawDefinitionsAmongReferences(root: Scope, path: Path, name: string, uri: string, id: FileScopedIdentifier)
    requires HasPath(root, path)
    requires forall p :: HasPath(root, p) ==> DefinitionsRecordedAsReferences(At(root, p))
    requires id in RawVariable(root, path, Definitions, name, uri)
    ensures id in RawVariable(root, path, References, name, uri)
  {
    hide DefinitionsRecordedAsReferences;
    var scope, paths := root, [[]];
    if path == [] && name !in root.globals {
      assert Collected(root, [[]], Definitions, name, uri) == Tagged(uri, root.Definitions(name));
      assert Collected(root, [[]], References, name, uri) == Tagged(uri, root.References(name));
    } else if path == [] || Resolve(root, path, name).ResolvedGlobal? {
      GlobalBelowHasPaths(root, Undeclared, 0, name);
      paths := GlobalPaths(root, name);
      forall p | HasPath(root, p) ensures root == At(root, []) && [] + p == p {}
    } else {
      ResolveSource(root, path, name);
      var source := Resolve(root, path, name).sweepSource;
      scope, paths := At(root, source), SweptPaths(At(root, source), ShadowingDeclaration, name);
      SweptHavePaths(scope, ShadowingDeclaration, name);
      forall p | HasPath(scope, p) ensures HasPath(root, source + p) && At(root, source + p) == At(scope, p) {
        AtConcat(root, source, p);
      }
    }
    DefinitionsCollectedAsReferences(scope, paths, name, uri, id);
  }

  lemma DefinitionsCollectedAsReferences(scope: Scope, paths: seq<Path>, name: string, uri: string,
                                         id: FileScopedIdentifier)
    requires AllPaths(scope, paths) && forall p :: HasPath(scope, p) ==> DefinitionsRecordedAsReferences(At(scope, p))
    requires id in Collected(scope, paths, Definitions, name, uri)
    ensures id in Collected(scope, paths, References, name, uri)
  {
    hide Collected;
    CollectedUris(scope, paths, Definitions, name, uri, id);
    InCollected(scope, paths, Definitions, name, uri, id.identifier);
    InCollected(scope, paths, References, name, uri, id.identifier);
  }

  lemma {:induction false} CollectedUris(
    scope: Scope, paths: seq<Path>, kind: IdentifierKind, name: string, uri: string, id: FileScopedIdentifier
  )
    requires AllPaths(scope, paths) && id in Collected(scope, paths, kind, name, uri)
    ensures id.uri == uri
  {
    if id !in Tagged(uri, IdentifiersOf(At(scope, paths[0]), kind, name)) {
      CollectedUris(scope, paths[1..], kind, name, uri, id);
    }
  }

  // ----- classes

  /** A class declared in the file, and the declared name of its constructor if it has one. */
  datatype ClassInfo = ClassInfo(declarationNameId: NamedRange, constructorId: Option<NamedRange>)

  function Located(uri: string, ids: seq<NamedRange>): (locations: seq<Location>)
    ensures |locations| == |ids|
    ensures forall i :: 0 <= i < |ids| ==> locations[i] == Location(uri, ids[i].range)
  {
    seq(|ids|, i requires 0 <= i < |ids| => Location(uri, ids[i].range))
  }

  predicate DeclaresClass(classScope: Option<ClassInfo>, idName: string) {
    classScope.Some? && classScope.value.declarationNameId.name == idName
  }

  /** Constructor names are not recorded among the class references. */
  function ClassReferences(idName: string, classScope: Option<ClassInfo>, recorded: map<string, seq<NamedRange>>)
    : seq<NamedRange> {
    (if DeclaresClass(classScope, idName) && classScope.value.constructorId.Some?
     then [classScope.value.constructorId.value] else []) + (if idName in recorded then recorded[idName] else [])
  }

  function ClassDefinitions(idName: string, classScope: Option<ClassInfo>): seq<NamedRange> {
    if !DeclaresClass(classScope, idName) then []
    else [classScope.value.declarationNameId] +
         if classScope.value.constructorId.Some? then [classScope.value.constructorId.value] else []
  }

  /** Each list is built only when it is wanted. */
  method FindClassRefsOrDefs(
    idName: string, classScope: Option<ClassInfo>, classReferences: map<string, seq<NamedRange>>, uri: string,
    resultType: ResultType
  ) returns (result: SearchResult)
    ensures Wanted(resultType, Some(Located(uri, ClassReferences(idName, classScope, classReferences))),
                   Some(Located(uri, ClassDefinitions(idName, classScope)))) == Some(result)
  {
    var needRefs, needDefs := resultType != DefinitionsOnly, resultType != ReferencesOnly;
    var refs, defs := [], [];
    if classScope.Some? && classScope.value.declarationNameId.name == idName {
      if needDefs {
        defs := defs + [classScope.value.declarationNameId];
      }
      if classScope.value.constructorId.Some? {
        if needRefs {
          refs := refs + [classScope.value.constructorId.value];
        }
        if needDefs {
          defs := defs + [classScope.value.constructorId.value];
        }
      }
    }
    if needRefs {
      refs := refs + (if idName in classReferences then classReferences[idName] else []);
    }
    assert needRefs ==> refs == ClassReferences(idName, classScope, classReferences);
    assert needDefs ==> defs == ClassDefinitions(idName, classScope);
    result := SearchResult(if needRefs then Some(Located(uri, refs)) else None,
                           if needDefs then Some(Located(uri, defs)) else None);
  }

  /** For a class declared in the file the definitions are among the references exactly when the declared class name is
      recorded as a reference, or the constructor happens to be located there. */
  lemma ClassDefinitionsAmongReferences(
    idName: string, class_: ClassInfo, recorded: map<string, seq<NamedRange>>, uri: string
  )
    requires class_.declarationNameId.name == idName
    ensures AreAmong(Located(uri, ClassDefinitions(idName, Some(class_))),
                     Located(uri, ClassReferences(idName, Some(class_), recorded))) <==>
            || (idName in recorded && exists r :: r in recorded[idName] && r.range == class_.declarationNameId.range)
            || (class_.constructorId.Some? && class_.constructorId.value.range == class_.declarationNameId.range)
  {
    hide Located;
    var own := if idName in recorded then recorded[idName] else [];
    var references := ClassReferences(idName, Some(class_), recorded);
    var d := Location(uri, class_.declarationNameId.range);
    LocatedHas(uri, own, class_.declarationNameId.range);
    if class_.constructorId.Some? {
      var constructorId := class_.constructorId.value;
      var c := Location(uri, constructorId.range);
      LocatedParts(uri, [constructorId], own);
      LocatedParts(uri, [class_.declarationNameId], [constructorId]);
      PairAmong(d, c, Located(uri, own));
      assert Located(uri, ClassDefinitions(idName, Some(class_))) == [d, c];
      assert Located(uri, references) == [c] + Located(uri, own);
    } else {
      assert Located(uri, ClassDefinitions(idName, Some(class_))) == [d];
      assert references == own;
      assert d in [d];
    }
  }

  /** A declared constructor is in both lists, the class itself just among the definitions, and what is recorded just
      among the references. */
  lemma ClassListsAre(idName: string, class_: ClassInfo, recorded: map<string, seq<NamedRange>>, id: NamedRange)
    ensures var named, isRecorded := class_.declarationNameId.name == idName,
                                     idName in recorded && id in recorded[idName];
            && (id in ClassReferences(idName, Some(class_), recorded) <==>
                (named && class_.constructorId == Some(id)) || isRecorded)
            && (id in ClassDefinitions(idName, Some(class_)) <==>
                named && (id == class_.declarationNameId || class_.constructorId == Some(id)))
            && (id in ClassReferences(idName, None, recorded) <==> isRecorded)
            && ClassDefinitions(idName, None) == []
  {
  }

  lemma LocatedParts(uri: string, a: seq<NamedRange>, b: seq<NamedRange>)
    ensures Located(uri, a + b) == Located(uri, a) + Located(uri, b)
  {
  }

  lemma LocatedHas(uri: string, ranges: seq<NamedRange>, range: Range)
    ensures Location(uri, range) in Located(uri, ranges) <==> exists r :: r in ranges && r.range == range
  {
    if r :| r in ranges && r.range == range {
      var k :| 0 <= k < |ranges| && ranges[k] == r;
      assert Located(uri, ranges)[k] == Location(uri, range);
    }
  }

  lemma PairAmong(d: Location, c: Location, rest: seq<Location>)
    ensures (forall x :: x in [d, c] ==> x in [c] + rest) <==> d == c || d in rest
    ensures d in [d, c]
  {
    assert d in [d, c] && c in [c] + rest;
  }
}
