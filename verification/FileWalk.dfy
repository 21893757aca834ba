/** Walking a folder for the .m files in it, without following a link. */
module FileWalk {
  import opened Sequences
  import opened Regex
  import opened GlobSyntax
  import opened ExcludeGlobs
  import opened GlobLanguage
  import opened ExcludeMatcher
  import opened Options

  /** What the file system says of an entry that is not a link; a link itself is neither. */
  datatype EntryType = IsFile | IsDirectory | IsNeither

  /** An entry as reading its folder reports it. One typed as a link is looked at again, which fails when it is gone. */
  datatype Entry = Entry(name: string, typedAsLink: bool, typed: EntryType, lstat: Option<EntryType>,
      contents: Contents)

  /** What reading a folder gives. */
  datatype Contents = Unreadable | Entries(entries: seq<Entry>)

  function TypeOf(entry: Entry): Option<EntryType> {
    if entry.typedAsLink then entry.lstat else Some(entry.typed)
  }

  predicate EndsWithM(name: string) {
    |name| >= 2 && name[|name| - 2..] == ".m"
  }

  type Exclusion = (string, bool) -> bool

  predicate Skips(isExcluded: Exclusion, path: seq<string>, isDirectory: bool)
    requires path != []
  {
    isExcluded(Join(path, '/'), isDirectory)
  }

  // ----- the listing

  function Listing(contents: Contents, folder: seq<string>, isExcluded: Exclusion): seq<seq<string>>
    decreases contents, 1
  {
    if contents.Unreadable? then [] else ListingOf(contents.entries, folder, isExcluded)
  }

  function ListingOf(entries: seq<Entry>, folder: seq<string>, isExcluded: Exclusion): seq<seq<string>>
    decreases entries, 1
  {
    if entries == [] then []
    else ListingOf(entries[..|entries| - 1], folder, isExcluded) +
         ListingOfOne(entries[|entries| - 1], folder, isExcluded)
  }

  function ListingOfOne(entry: Entry, folder: seq<string>, isExcluded: Exclusion): seq<seq<string>>
    decreases entry, 0
  {
    var path := folder + [entry.name];
    match TypeOf(entry)
    case Some(IsDirectory) => if Skips(isExcluded, path, true) then [] else Listing(entry.contents, path, isExcluded)
    case Some(IsFile) => if EndsWithM(entry.name) && !Skips(isExcluded, path, false) then [path] else []
    case _ => []
  }

  lemma JoinedMore(folder: seq<string>, name: string)
    requires folder != []
    ensures Join(folder + [name], '/') == Join(folder, '/') + "/" + name
  {
    if |folder| > 1 {
      JoinedMore(folder[1..], name);
      assert (folder + [name])[1..] == folder[1..] + [name];
    }
  }

  // ----- the program

  /** A path is the names that lead to it from the folder that is walked. */
  class Walker {
    var filePaths: seq<seq<string>>

    constructor ()
      ensures filePaths == []
    {
      filePaths := [];
    }

    method Walk(contents: Contents, directory: seq<string>, relativeDirectory: string, isExcluded: Exclusion)
      requires relativeDirectory == if directory == [] then "" else Join(directory, '/')
      requires directory != [] ==> relativeDirectory != ""
      requires NamedAll(contents)
      modifies this
      ensures filePaths == old(filePaths) + Listing(contents, directory, isExcluded)
      decreases contents
    {
      hide *;
      if contents.Unreadable? {
        NothingListed(contents, directory, isExcluded);
        return;
      }
      var entries := contents.entries;
      NothingListed(contents, directory, isExcluded);
      for i := 0 to |entries|
        invariant filePaths == old(filePaths) + ListingOf(entries[..i], directory, isExcluded)
      {
        NextListed(contents, i, directory, isExcluded);
        var entry := entries[i];
        var entryPath := directory + [entry.name];
        var relativePath := if relativeDirectory == "" then entry.name else relativeDirectory + "/" + entry.name;
        PathOf(directory, entry.name);
        var entryType := if entry.typedAsLink then entry.lstat else Some(entry.typed);
        if entryType.Some? {
          if entryType.value.IsDirectory? {
            if !isExcluded(relativePath, true) {
              Walk(entry.contents, entryPath, relativePath, isExcluded);
            }
          } else if entryType.value.IsFile? && EndsWithM(entry.name) && !isExcluded(relativePath, false) {
            filePaths := filePaths + [entryPath];
          }
        }
        OneListed(entry, directory, isExcluded);
      }
      assert entries[..|entries|] == entries;
    }
  }

  lemma NothingListed(contents: Contents, directory: seq<string>, isExcluded: Exclusion)
    ensures contents.Unreadable? ==> Listing(contents, directory, isExcluded) == []
    ensures contents.Entries? ==> Listing(contents, directory, isExcluded) ==
                                  ListingOf(contents.entries, directory, isExcluded)
    ensures contents.Entries? ==> ListingOf(contents.entries[..0], directory, isExcluded) == []
  {
  }

  lemma NextListed(contents: Contents, i: nat, directory: seq<string>, isExcluded: Exclusion)
    requires contents.Entries? && i < |contents.entries| && NamedAll(contents)
    ensures var entries := contents.entries;
            ListingOf(entries[..i + 1], directory, isExcluded) ==
            ListingOf(entries[..i], directory, isExcluded) + ListingOfOne(entries[i], directory, isExcluded)
    ensures contents.entries[i].name != "" && NamedAll(contents.entries[i].contents)
  {
    assert contents.entries[..i + 1][..i] == contents.entries[..i];
  }

  lemma PathOf(directory: seq<string>, name: string)
    requires name != ""
    ensures var relative := Join(directory + [name], '/');
            relative != "" && relative == if directory == [] then name else Join(directory, '/') + "/" + name
  {
    if directory != [] {
      JoinedMore(directory, name);
    }
  }

  lemma OneListed(entry: Entry, directory: seq<string>, isExcluded: Exclusion)
    ensures var path := directory + [entry.name]; var entryType := TypeOf(entry);
            TypeOf(entry) == (if entry.typedAsLink then entry.lstat else Some(entry.typed)) &&
            ListingOfOne(entry, directory, isExcluded) ==
            if entryType == Some(IsDirectory) && !isExcluded(Join(path, '/'), true)
                then Listing(entry.contents, path, isExcluded)
            else if entryType == Some(IsFile) && EndsWithM(entry.name) &&
                !isExcluded(Join(path, '/'), false) then [path]
            else []
  {
    hide Listing;
  }

  method FindMatlabFiles(contents: Contents, isExcluded: Exclusion) returns (filePaths: seq<seq<string>>)
    requires NamedAll(contents)
    ensures filePaths == Listing(contents, [], isExcluded)
  {
    var walker := new Walker();
    walker.Walk(contents, [], "", isExcluded);
    return walker.filePaths;
  }

  // ----- what is listed

  /** Every entry of the tree satisfies a predicate on names, and entries of a folder have different names. */
  predicate NamedAll(contents: Contents) {
    contents.Entries? ==> forall i :: 0 <= i < |contents.entries| ==>
                            contents.entries[i].name != "" && NamedAll(contents.entries[i].contents)
  }

  predicate UniqueNames(contents: Contents) {
    contents.Entries? ==>
      (forall i, j :: 0 <= i < j < |contents.entries| ==> contents.entries[i].name != contents.entries[j].name) &&
      forall i :: 0 <= i < |contents.entries| ==> UniqueNames(contents.entries[i].contents)
  }

  /** A path in the tree from a folder on: every name but the last is of a folder that is no link and can be read, and
      the last of a file that is no link. */
  ghost predicate LeadsToFile(contents: Contents, path: seq<string>)
    decreases |path|
  {
    contents.Entries? && path != [] &&
    exists i :: 0 <= i < |contents.entries| && Leads(contents.entries[i], path)
  }

  /** One typed as a link is what a second look says of it, and any other is what it is typed as. */
  predicate Is(entry: Entry, entryType: EntryType) {
    (!entry.typedAsLink && entry.typed == entryType) || (entry.typedAsLink && entry.lstat == Some(entryType))
  }

  ghost predicate Leads(entry: Entry, path: seq<string>)
    requires path != []
    decreases |path|, 0
  {
    entry.name == path[0] &&
    if |path| == 1 then Is(entry, IsFile) else Is(entry, IsDirectory) && LeadsToFile(entry.contents, path[1..])
  }

  function Tail(s: string, n: nat): string {
    if |s| < n then s else s[|s| - n..]
  }

  /** Neither the path below a folder nor a folder it goes through is left out. */
  ghost predicate Kept(folder: seq<string>, path: seq<string>, isExcluded: Exclusion) {
    path != [] && !Skips(isExcluded, folder + path, false) &&
    forall k :: 0 < k < |path| ==> !Skips(isExcluded, folder + path[..k], true)
  }

  ghost predicate IsListed(contents: Contents, folder: seq<string>, path: seq<string>, isExcluded: Exclusion) {
    LeadsToFile(contents, path) && ".m" == Tail(path[|path| - 1], 2) && Kept(folder, path, isExcluded)
  }

  lemma KeptBelow(folder: seq<string>, path: seq<string>, isExcluded: Exclusion)
    requires |path| > 1
    ensures Kept(folder, path, isExcluded) <==>
            !Skips(isExcluded, folder + [path[0]], true) && Kept(folder + [path[0]], path[1..], isExcluded)
  {
    hide Skips;
    var below, rest := folder + [path[0]], path[1..];
    assert folder + path == below + rest && path[..1] == [path[0]];
    assert forall k :: 1 < k < |path| ==> folder + path[..k] == below + rest[..k - 1];
    if Kept(folder, path, isExcluded) {
      assert forall k :: 0 < k < |rest| ==> below + rest[..k] == folder + path[..k + 1];
    }
  }

  lemma {:induction false} ListedOf(entries: seq<Entry>, folder: seq<string>, isExcluded: Exclusion, path: seq<string>)
    ensures folder + path in ListingOf(entries, folder, isExcluded) <==>
            exists i :: 0 <= i < |entries| && folder + path in ListingOfOne(entries[i], folder, isExcluded)
    decreases |entries|
  {
    hide ListingOfOne;
    if entries != [] {
      var rest := entries[..|entries| - 1];
      ListedOf(rest, folder, isExcluded, path);
      assert forall i :: 0 <= i < |rest| ==> rest[i] == entries[i];
    }
  }

  /** The walk lists exactly the .m files reached through no link with neither it nor a folder on the way left out. */
  lemma {:induction false} ListingIsExact(contents: Contents, folder: seq<string>, isExcluded: Exclusion,
                                          path: seq<string>)
    ensures folder + path in Listing(contents, folder, isExcluded) <==> IsListed(contents, folder, path, isExcluded)
    decreases contents, 1
  {
    hide IsListed, ListingOfOne, ListingOf, Leads;
    if contents.Unreadable? {
      assert !IsListed(contents, folder, path, isExcluded) by {
        hide *;
        NothingUnreadable(contents, folder, path, isExcluded);
      }
    } else {
      var entries := contents.entries;
      ListedOf(entries, folder, isExcluded, path);
      forall i | 0 <= i < |entries|
        ensures folder + path in ListingOfOne(entries[i], folder, isExcluded) <==>
                EntryListed(entries[i], folder, path, isExcluded)
      {
        OneIsExact(entries[i], folder, isExcluded, path);
      }
      ListedByEntry(contents, folder, path, isExcluded);
    }
  }

  ghost predicate EntryListed(entry: Entry, folder: seq<string>, path: seq<string>, isExcluded: Exclusion) {
    path != [] && Leads(entry, path) && ".m" == Tail(path[|path| - 1], 2) && Kept(folder, path, isExcluded)
  }

  lemma NothingUnreadable(contents: Contents, folder: seq<string>, path: seq<string>, isExcluded: Exclusion)
    requires contents.Unreadable?
    ensures !IsListed(contents, folder, path, isExcluded)
  {
  }

  lemma ListedByEntry(contents: Contents, folder: seq<string>, path: seq<string>, isExcluded: Exclusion)
    requires contents.Entries?
    ensures IsListed(contents, folder, path, isExcluded) <==>
            exists i :: 0 <= i < |contents.entries| && EntryListed(contents.entries[i], folder, path, isExcluded)
  {
    hide Leads, Kept;
  }

  lemma {:induction false} OneIsExact(entry: Entry, folder: seq<string>, isExcluded: Exclusion, path: seq<string>)
    ensures folder + path in ListingOfOne(entry, folder, isExcluded) <==> EntryListed(entry, folder, path, isExcluded)
    decreases entry, 0
  {
    hide Skips, Listing, IsListed;
    var here := folder + [entry.name];
    match TypeOf(entry)
    case Some(IsDirectory) =>
      if path != [] && path[0] == entry.name {
        assert folder + path == here + path[1..];
        ListingIsExact(entry.contents, here, isExcluded, path[1..]);
      }
      ListedStartWithFolder(entry.contents, here, isExcluded);
      DirectoryListed(entry, folder, isExcluded, path);
    case Some(IsFile) =>
      FileListed(entry, folder, isExcluded, path);
    case _ =>
  }

  lemma {:induction false} ListedStartWithFolder(contents: Contents, folder: seq<string>, isExcluded: Exclusion)
    ensures forall p :: p in Listing(contents, folder, isExcluded) ==> folder < p
    decreases contents, 1
  {
    if contents.Entries? {
      OfStartWithFolder(contents.entries, folder, isExcluded);
    }
  }

  lemma {:induction false} OfStartWithFolder(entries: seq<Entry>, folder: seq<string>, isExcluded: Exclusion)
    ensures forall p :: p in ListingOf(entries, folder, isExcluded) ==> folder < p
    decreases entries, 1
  {
    if entries != [] {
      OfStartWithFolder(entries[..|entries| - 1], folder, isExcluded);
      OneStartsWithEntry(entries[|entries| - 1], folder, isExcluded);
    }
  }

  lemma {:induction false} OneStartsWithEntry(entry: Entry, folder: seq<string>, isExcluded: Exclusion)
    ensures forall p :: p in ListingOfOne(entry, folder, isExcluded) ==> folder + [entry.name] <= p
    decreases entry, 0
  {
    hide Skips, Listing;
    ListedStartWithFolder(entry.contents, folder + [entry.name], isExcluded);
  }

  lemma DirectoryListed(entry: Entry, folder: seq<string>, isExcluded: Exclusion, path: seq<string>)
    requires TypeOf(entry) == Some(IsDirectory)
    requires var here := folder + [entry.name];
             (forall p :: p in Listing(entry.contents, here, isExcluded) ==> here < p) &&
             (path != [] && path[0] == entry.name ==>
                (here + path[1..] in Listing(entry.contents, here, isExcluded) <==>
                 IsListed(entry.contents, here, path[1..], isExcluded)))
    ensures folder + path in ListingOfOne(entry, folder, isExcluded) <==> EntryListed(entry, folder, path, isExcluded)
  {
    hide Skips, Listing, LeadsToFile, Kept;
    var here := folder + [entry.name];
    assert path != [] && path[0] == entry.name ==> here + path[1..] == folder + path;
    if here <= folder + path {
      assert (folder + path)[|folder|] == entry.name;
      assert path[0] == entry.name && folder + path == here + path[1..];
      if |path| > 1 {
        KeptBelow(folder, path, isExcluded);
        assert path[1..][|path| - 2] == path[|path| - 1];
      } else {
        assert path[1..] == [];
        NoFileHere(entry.contents);
      }
    }
  }

  lemma NoFileHere(contents: Contents)
    ensures !LeadsToFile(contents, [])
  {
  }

  lemma FileListed(entry: Entry, folder: seq<string>, isExcluded: Exclusion, path: seq<string>)
    requires TypeOf(entry) == Some(IsFile)
    ensures folder + path in ListingOfOne(entry, folder, isExcluded) <==> EntryListed(entry, folder, path, isExcluded)
  {
    hide Skips, Listing, LeadsToFile;
    var here := folder + [entry.name];
    if folder + path == here {
      assert (folder + path)[|folder|..] == path && here[|folder|..] == [entry.name];
    }
    if path != [] && path[0] == entry.name && |path| == 1 {
      assert path == [entry.name];
    }
  }

  // ----- once each

  /** With names that are unique in each folder, no file is listed twice. */
  lemma {:induction false} ListedOnce(contents: Contents, folder: seq<string>, isExcluded: Exclusion)
    requires UniqueNames(contents)
    ensures Distinct(Listing(contents, folder, isExcluded))
    decreases contents, 1
  {
    if contents.Entries? {
      ListedOnceOf(contents.entries, folder, isExcluded);
    }
  }

  lemma {:induction false} ListedOnceOf(entries: seq<Entry>, folder: seq<string>, isExcluded: Exclusion)
    requires forall i :: 0 <= i < |entries| ==> UniqueNames(entries[i].contents)
    requires forall i, j :: 0 <= i < j < |entries| ==> entries[i].name != entries[j].name
    ensures Distinct(ListingOf(entries, folder, isExcluded))
    decreases entries, 1
  {
    hide ListingOfOne, UniqueNames;
    if entries != [] {
      var rest, last := entries[..|entries| - 1], entries[|entries| - 1];
      ListedOnceOf(rest, folder, isExcluded);
      ListedOnceOne(last, folder, isExcluded);
      forall p | p in ListingOf(rest, folder, isExcluded) ensures p !in ListingOfOne(last, folder, isExcluded) {
        var name := FromEntry(rest, folder, isExcluded, p);
        OneStartsWithEntry(last, folder, isExcluded);
        assert p[|folder|] == name;
      }
      DistinctTogether(ListingOf(rest, folder, isExcluded), ListingOfOne(last, folder, isExcluded));
    }
  }

  lemma {:induction false} ListedOnceOne(entry: Entry, folder: seq<string>, isExcluded: Exclusion)
    requires UniqueNames(entry.contents)
    ensures Distinct(ListingOfOne(entry, folder, isExcluded))
    decreases entry, 0
  {
    hide Skips, Listing, UniqueNames;
    ListedOnce(entry.contents, folder + [entry.name], isExcluded);
  }

  lemma {:induction false} FromEntry(entries: seq<Entry>, folder: seq<string>, isExcluded: Exclusion, p: seq<string>)
    returns (name: string)
    requires p in ListingOf(entries, folder, isExcluded)
    ensures folder < p && p[|folder|] == name && exists i :: 0 <= i < |entries| && entries[i].name == name
    decreases |entries|
  {
    hide ListingOfOne;
    var rest, last := entries[..|entries| - 1], entries[|entries| - 1];
    if p in ListingOf(rest, folder, isExcluded) {
      name := FromEntry(rest, folder, isExcluded, p);
    } else {
      OneStartsWithEntry(last, folder, isExcluded);
      name := last.name;
    }
  }

  // ----- skipping emptied folders loses nothing

  ghost function Excluding(matcher: Matcher): Exclusion {
    (path: string, isDirectory: bool) => matcher.IsExcluded(path, isDirectory)
  }

  /** The matcher without the patterns that are only for folders. */
  ghost function Unpruned(globs: seq<string>): Matcher {
    MatcherOf(globs).(emptiedFolderPatterns := [])
  }

  /** Below the folder the path goes through a folder that is skipped only because a glob empties it. */
  ghost predicate IsLost(folder: seq<string>, path: seq<string>, globs: seq<string>) {
    exists k :: IsEmptiedAt(folder, path, globs, k)
  }

  ghost predicate IsEmptiedAt(folder: seq<string>, path: seq<string>, globs: seq<string>, k: nat) {
    |folder| < k < |path| && AnyAccepts(FolderTranslations(globs), Join(path[..k], '/'))
  }

  ghost function WithoutLost(paths: seq<seq<string>>, folder: seq<string>, globs: seq<string>): seq<seq<string>> {
    if paths == [] then []
    else
      var last := paths[|paths| - 1];
      WithoutLost(paths[..|paths| - 1], folder, globs) + if IsLost(folder, last, globs) then [] else [last]
  }

  lemma {:induction false} WithoutLostConcat(a: seq<seq<string>>, b: seq<seq<string>>, folder: seq<string>,
                                             globs: seq<string>)
    ensures WithoutLost(a + b, folder, globs) == WithoutLost(a, folder, globs) + WithoutLost(b, folder, globs)
  {
    hide IsLost;
    if b == [] {
      assert a + b == a;
    } else {
      var front, last := b[..|b| - 1], b[|b| - 1];
      WithoutLostConcat(a, front, folder, globs);
      assert (a + b)[..|a + b| - 1] == a + front && (a + b)[|a + b| - 1] == last;
      Associative(WithoutLost(a, folder, globs), WithoutLost(front, folder, globs),
          if IsLost(folder, last, globs) then [] else [last]);
    }
  }

  /** The walk that skips emptied folders lists, in the same order, what the walk without that pruning lists and what
      does not go through an emptied folder. */
  lemma {:induction false} PruningIsExact(contents: Contents, folder: seq<string>, globs: seq<string>)
    ensures Listing(contents, folder, Excluding(MatcherOf(globs))) ==
            WithoutLost(Listing(contents, folder, Excluding(Unpruned(globs))), folder, globs)
    decreases contents, 1
  {
    if contents.Entries? {
      PruningIsExactOf(contents.entries, folder, globs);
    }
  }

  lemma {:induction false} PruningIsExactOf(entries: seq<Entry>, folder: seq<string>, globs: seq<string>)
    ensures ListingOf(entries, folder, Excluding(MatcherOf(globs))) ==
            WithoutLost(ListingOf(entries, folder, Excluding(Unpruned(globs))), folder, globs)
    decreases entries, 1
  {
    hide ListingOfOne, IsLost;
    if entries != [] {
      var front, last := entries[..|entries| - 1], entries[|entries| - 1];
      PruningIsExactOf(front, folder, globs);
      PruningIsExactOne(last, folder, globs);
      WithoutLostConcat(ListingOf(front, folder, Excluding(Unpruned(globs))),
          ListingOfOne(last, folder, Excluding(Unpruned(globs))), folder, globs);
    }
  }

  lemma {:induction false} PruningIsExactOne(entry: Entry, folder: seq<string>, globs: seq<string>)
    ensures ListingOfOne(entry, folder, Excluding(MatcherOf(globs))) ==
            WithoutLost(ListingOfOne(entry, folder, Excluding(Unpruned(globs))), folder, globs)
    decreases entry, 0
  {
    hide Listing, AnyAccepts, Join, Translations, FolderTranslations, IsLost, WithoutLost;
    var here := folder + [entry.name];
    var below := Listing(entry.contents, here, Excluding(Unpruned(globs)));
    PruningIsExact(entry.contents, here, globs);
    NoPatterns(Join(here, '/'));
    NothingLost(folder, globs);
    FileIsNotLost(folder, entry.name, globs);
    ListedStartWithFolder(entry.contents, here, Excluding(Unpruned(globs)));
    LostFurtherDown(below, folder, entry.name, globs);
  }

  lemma NoPatterns(path: string)
    ensures !AnyAccepts([], path)
  {
  }

  lemma NothingLost(folder: seq<string>, globs: seq<string>)
    ensures WithoutLost([], folder, globs) == []
  {
  }

  lemma FileIsNotLost(folder: seq<string>, name: string, globs: seq<string>)
    ensures WithoutLost([folder + [name]], folder, globs) == [folder + [name]]
  {
    var path := folder + [name];
    assert [path][..0] == [];
    NothingLost(folder, globs);
    assert !IsLost(folder, path, globs);
  }

  /** What goes on below a folder is lost when that folder is emptied, and otherwise when it is lost from there. */
  lemma {:induction false} LostFurtherDown(paths: seq<seq<string>>, folder: seq<string>, name: string,
                                           globs: seq<string>)
    requires forall p :: p in paths ==> folder + [name] < p
    ensures var here := folder + [name];
            WithoutLost(paths, folder, globs) ==
            if AnyAccepts(FolderTranslations(globs), Join(here, '/')) then [] else WithoutLost(paths, here, globs)
  {
    hide AnyAccepts, Join, FolderTranslations, IsLost;
    if paths != [] {
      var last := paths[|paths| - 1];
      var front := paths[..|paths| - 1];
      assert paths == front + [last];
      forall p | p in front ensures folder + [name] < p {
        assert p in paths;
      }
      LostFurtherDown(front, folder, name, globs);
      assert last in paths;
      LostBelow(last, folder, name, globs);
    }
  }

  lemma LostBelow(path: seq<string>, folder: seq<string>, name: string, globs: seq<string>)
    requires folder + [name] < path
    ensures var here := folder + [name];
            IsLost(folder, path, globs) <==>
            AnyAccepts(FolderTranslations(globs), Join(here, '/')) || IsLost(here, path, globs)
  {
    hide AnyAccepts, Join, FolderTranslations;
    var here := folder + [name];
    assert path[..|here|] == here;
    if AnyAccepts(FolderTranslations(globs), Join(here, '/')) {
      assert IsEmptiedAt(folder, path, globs, |here|);
    }
    assert forall k :: IsEmptiedAt(folder, path, globs, k) ==> k == |here| || IsEmptiedAt(here, path, globs, k);
    assert forall k :: IsEmptiedAt(here, path, globs, k) ==> IsEmptiedAt(folder, path, globs, k);
  }

  lemma {:induction false} InWithoutLost(paths: seq<seq<string>>, folder: seq<string>, globs: seq<string>,
                                         path: seq<string>)
    ensures path in WithoutLost(paths, folder, globs) <==> path in paths && !IsLost(folder, path, globs)
    ensures (forall p :: p in paths ==> !IsLost(folder, p, globs)) ==> WithoutLost(paths, folder, globs) == paths
  {
    hide IsLost;
    if paths != [] {
      var front, last := paths[..|paths| - 1], paths[|paths| - 1];
      InWithoutLost(front, folder, globs, path);
      assert paths == front + [last];
    }
  }

  /** The walk that skips emptied folders lists just the files of the walk without that pruning that are not lost. */
  lemma PruningLosesExactly(contents: Contents, folder: seq<string>, globs: seq<string>, path: seq<string>)
    ensures path in Listing(contents, folder, Excluding(MatcherOf(globs))) <==>
            path in Listing(contents, folder, Excluding(Unpruned(globs))) && !IsLost(folder, path, globs)
  {
    hide Listing, IsLost;
    PruningIsExact(contents, folder, globs);
    InWithoutLost(Listing(contents, folder, Excluding(Unpruned(globs))), folder, globs, path);
  }

  // ----- only line breaks lose files

  lemma {:induction false} JoinedParts(a: seq<string>, b: seq<string>)
    requires a != [] && b != []
    ensures Join(a + b, '/') == Join(a, '/') + "/" + Join(b, '/')
  {
    if |a| == 1 {
      assert (a + b)[1..] == b;
    } else {
      JoinedParts(a[1..], b);
      assert (a + b)[1..] == a[1..] + b;
    }
  }

  lemma {:induction false} LineBreakFreeNamesJoined(names: seq<string>)
    requires names != [] && forall k :: 0 <= k < |names| ==> LineBreakFree(names[k])
    ensures LineBreakFree(Join(names, '/'))
  {
    hide LineBreakFree;
    if |names| > 1 {
      LineBreakFreeNamesJoined(names[1..]);
      LineBreakFreeJoined(names[0], Join(names[1..], '/'));
    }
  }

  /** A file is lost only for a line break in a name below the emptied folder. */
  lemma LostHasLineBreak(contents: Contents, folder: seq<string>, globs: seq<string>, path: seq<string>, k: nat)
    requires path in Listing(contents, folder, Excluding(Unpruned(globs))) && IsEmptiedAt(folder, path, globs, k)
    ensures exists j :: k <= j < |path| && !LineBreakFree(path[j])
  {
    hide Listing, AnyAccepts, LineBreakFree, Translations, FolderTranslations, Join;
    var plain := Excluding(Unpruned(globs));
    ListedStartWithFolder(contents, folder, plain);
    var below := path[|folder|..];
    assert folder + below == path;
    ListingIsExact(contents, folder, plain, below);
    assert !AnyAccepts(Translations(globs), Join(path, '/'));
    var start, rest := path[..k], path[k..];
    assert start + rest == path;
    JoinedParts(start, rest);
    if forall j :: k <= j < |path| ==> LineBreakFree(path[j]) {
      LineBreakFreeNamesJoined(rest);
      SkippingIsExcluding(globs, Join(start, '/'), Join(rest, '/'));
    }
  }

  predicate LineBreakFreeNames(contents: Contents) {
    contents.Entries? ==> forall i :: 0 <= i < |contents.entries| ==>
                            LineBreakFree(contents.entries[i].name) && LineBreakFreeNames(contents.entries[i].contents)
  }

  lemma {:induction false} LeadsThroughNames(contents: Contents, path: seq<string>)
    requires LineBreakFreeNames(contents) && LeadsToFile(contents, path)
    ensures forall j :: 0 <= j < |path| ==> LineBreakFree(path[j])
    decreases |path|
  {
    hide LineBreakFree;
    var i :| 0 <= i < |contents.entries| && Leads(contents.entries[i], path);
    if |path| > 1 {
      LeadsThroughNames(contents.entries[i].contents, path[1..]);
      assert forall j :: 1 <= j < |path| ==> path[j] == path[1..][j - 1];
    }
  }

  /** So on a tree of names without line breaks skipping emptied folders changes nothing of the listing. */
  lemma PruningLosesNothing(contents: Contents, folder: seq<string>, globs: seq<string>)
    requires LineBreakFreeNames(contents)
    ensures Listing(contents, folder, Excluding(MatcherOf(globs))) ==
            Listing(contents, folder, Excluding(Unpruned(globs)))
  {
    hide Listing, LineBreakFree, LineBreakFreeNames, IsEmptiedAt, Kept, LeadsToFile;
    var plain := Excluding(Unpruned(globs));
    PruningIsExact(contents, folder, globs);
    ListedStartWithFolder(contents, folder, plain);
    forall p | p in Listing(contents, folder, plain) ensures !IsLost(folder, p, globs) {
      var below := p[|folder|..];
      assert folder + below == p;
      ListingIsExact(contents, folder, plain, below);
      LeadsThroughNames(contents, below);
      assert forall j :: |folder| <= j < |p| ==> p[j] == below[j - |folder|];
      forall k | IsEmptiedAt(folder, p, globs, k) ensures false {
        EmptiedIsBelow(folder, p, globs, k);
        LostHasLineBreak(contents, folder, globs, p, k);
      }
    }
    InWithoutLost(Listing(contents, folder, plain), folder, globs, []);
  }

  lemma EmptiedIsBelow(folder: seq<string>, path: seq<string>, globs: seq<string>, k: nat)
    requires IsEmptiedAt(folder, path, globs, k)
    ensures |folder| < k < |path|
  {
  }

  /** A name with a line break shows why: only the walk that skips the folder leaves this file out. */
  lemma LineBreakIsLost(file: Entry, folder: Entry)
    requires file == Entry("\n.m", false, IsFile, None, Unreadable)
    requires folder == Entry("a", false, IsDirectory, None, Entries([file]))
    ensures ["a", "\n.m"] !in Listing(Entries([folder]), [], Excluding(MatcherOf(["a/**"])))
    ensures ["a", "\n.m"] in Listing(Entries([folder]), [], Excluding(Unpruned(["a/**"])))
  {
    var skipping, plain, path := Excluding(MatcherOf(["a/**"])), Excluding(Unpruned(["a/**"])), ["a", "\n.m"];
    hide Listing, AnyAccepts, MatcherOf, Unpruned;
    TheGlob();
    Listed(file, folder, skipping);
    Listed(file, folder, plain);
    Tests();
  }

  lemma Listed(file: Entry, folder: Entry, isExcluded: Exclusion)
    requires file == Entry("\n.m", false, IsFile, None, Unreadable)
    requires folder == Entry("a", false, IsDirectory, None, Entries([file]))
    ensures ["a", "\n.m"] in Listing(Entries([folder]), [], isExcluded) <==>
            !isExcluded("a", true) && !isExcluded("a/\n.m", false)
  {
    hide Skips;
    var here, path := ["a"], ["a", "\n.m"];
    assert Join(here, '/') == "a" && Join(path, '/') == "a/\n.m" && [] + [folder.name] == here &&
        here + [file.name] == path;
    OnlyOne(file, here, isExcluded);
    OnlyOne(folder, [], isExcluded);
    OneListed(file, here, isExcluded);
    OneListed(folder, [], isExcluded);
  }

  lemma OnlyOne(entry: Entry, folder: seq<string>, isExcluded: Exclusion)
    ensures Listing(Entries([entry]), folder, isExcluded) == ListingOfOne(entry, folder, isExcluded)
  {
    assert [entry][..0] == [];
    assert ListingOf([], folder, isExcluded) == [];
  }

  lemma TheGlob()
    ensures TranslateGlob("a/**", true) == [One(Literal('a')), SLASH, ANYTHING]
    ensures TranslateGlob("a", true) == [One(Literal('a'))]
  {
    LastSegment("a", 0, 0);
    SegmentsAre("a");
    assert "a"[0..] == "a" && "a" + "/" + "**" == "a/**";
    assert GroupEnd("a", 0) == -1 && SegmentFrom("a", 1, true) == [] &&
        SegmentFrom("a", 0, true) == [One(Literal('a'))];
    var segments := ["a", "**"];
    assert GlobFrom(segments, 2, true, 4) == [] && GlobFrom(segments, 1, true, 4) == [ANYTHING];
    assert GlobPiece(segments, 0, true, 4) == [One(Literal('a'))] + [SLASH];
    assert GlobFrom(segments, 0, true, 4) == [One(Literal('a')), SLASH, ANYTHING];
    assert segments[0] == "a" && !AllGlobstars(segments) && Segments("a/**") == segments && |"a/**"| == 4;
    assert GlobFrom(["a"], 1, true, 1) == [];
  }

  lemma Tests()
    requires TranslateGlob("a/**", true) == [One(Literal('a')), SLASH, ANYTHING]
    requires TranslateGlob("a", true) == [One(Literal('a'))]
    ensures MatcherOf(["a/**"]).IsExcluded("a", true)
    ensures !Unpruned(["a/**"]).IsExcluded("a", true)
    ensures !Unpruned(["a/**"]).IsExcluded("a/\n.m", false)
  {
    hide Accepts, TranslateGlob;
    var glob, line := "a/**", "\n.m";
    assert FolderOf(glob) == "a";
    EmptiedByOne([glob], "a");
    assert Empties([glob][0]);
    assert [One(Literal('a'))] + [] == [One(Literal('a'))] &&
        [One(Literal('a'))] + ([SLASH] + [ANYTHING]) == [One(Literal('a')), SLASH, ANYTHING];
    LiteralTakesOne('a', [], "a");
    AcceptsNothing("a"[1..]);
    LiteralTakesOne('a', [SLASH] + [ANYTHING], "a");
    SlashTakesOne([ANYTHING], "a"[1..]);
    LiteralTakesOne('a', [SLASH] + [ANYTHING], "a/\n.m");
    SlashTakesOne([ANYTHING], "a/\n.m"[1..]);
    assert "a/\n.m"[1..][1..] == line && IsLineBreak(line[0]);
    AnythingTakesLines(line);
  }
}
