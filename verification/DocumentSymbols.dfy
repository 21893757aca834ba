/** The program that nests document symbols: one pass that adds each symbol to the children of the innermost open one.
 */
module DocumentSymbols {
  import opened Ranges
  import opened SymbolForest

  class DocumentSymbol {
    const entry: SymbolEntry
    var children: seq<DocumentSymbol>

    constructor (entry: SymbolEntry)
      ensures this.entry == entry && children == []
    {
      this.entry := entry;
      children := [];
    }
  }

  /** A symbol and all below it are as a tree says, and are among some finished symbols. */
  ghost predicate Shows(node: DocumentSymbol, tree: Tree, finished: set<DocumentSymbol>)
    reads finished
    decreases tree
  {
    node in finished && node.entry == tree.entry && ShowsAll(node.children, tree.children, finished)
  }

  ghost predicate ShowsAll(nodes: seq<DocumentSymbol>, trees: seq<Tree>, finished: set<DocumentSymbol>)
    reads finished
    decreases trees
  {
    |nodes| == |trees| && forall k :: 0 <= k < |trees| ==> Shows(nodes[k], trees[k], finished)
  }

  lemma {:induction false} StillShows(node: DocumentSymbol, tree: Tree, finished: set<DocumentSymbol>,
                                      more: set<DocumentSymbol>)
    requires Shows(node, tree, finished) && finished <= more
    ensures Shows(node, tree, more)
    decreases tree
  {
    forall k | 0 <= k < |tree.children| ensures Shows(node.children[k], tree.children[k], more) {
      StillShows(node.children[k], tree.children[k], finished, more);
    }
  }

  lemma StillShowsAll(nodes: seq<DocumentSymbol>, trees: seq<Tree>, finished: set<DocumentSymbol>,
                      more: set<DocumentSymbol>)
    requires ShowsAll(nodes, trees, finished) && finished <= more
    ensures ShowsAll(nodes, trees, more)
  {
    forall k | 0 <= k < |trees| ensures Shows(nodes[k], trees[k], more) {
      StillShows(nodes[k], trees[k], finished, more);
    }
  }

  /** Siblings of which all but the open one at a level are finished. */
  ghost predicate Level(nodes: seq<DocumentSymbol>, trees: seq<Tree>, open: seq<DocumentSymbol>, k: nat,
                        finished: set<DocumentSymbol>)
    reads finished
  {
    if k < |open| then nodes != [] && nodes[|nodes| - 1] == open[k] && ShowsAll(nodes[..|nodes| - 1], trees, finished)
    else ShowsAll(nodes, trees, finished)
  }

  ghost predicate Holds(roots: seq<DocumentSymbol>, open: seq<DocumentSymbol>, s: State, finished: set<DocumentSymbol>)
    reads finished, open
  {
    |open| == |s.open| && Level(roots, s.roots, open, 0, finished) &&
    (forall i, j :: 0 <= i < j < |open| ==> open[i] != open[j]) &&
    forall k :: 0 <= k < |open| ==>
      open[k] !in finished && open[k].entry == s.open[k].entry &&
      Level(open[k].children, s.open[k].children, open, k + 1, finished)
  }

  lemma LevelBelow(nodes: seq<DocumentSymbol>, trees: seq<Tree>, open: seq<DocumentSymbol>, k: nat,
                   finished: set<DocumentSymbol>, more: set<DocumentSymbol>)
    requires Level(nodes, trees, open, k, finished) && k < |open| - 1 && finished <= more
    ensures Level(nodes, trees, open[..|open| - 1], k, more)
  {
    StillShowsAll(nodes[..|nodes| - 1], trees, finished, more);
  }

  /** The level of the last open symbol once that is finished. */
  lemma LevelFinished(nodes: seq<DocumentSymbol>, trees: seq<Tree>, open: seq<DocumentSymbol>, tree: Tree,
                      finished: set<DocumentSymbol>, more: set<DocumentSymbol>)
    requires open != [] && Level(nodes, trees, open, |open| - 1, finished) && finished <= more
    requires Shows(open[|open| - 1], tree, more)
    ensures Level(nodes, trees + [tree], open[..|open| - 1], |open| - 1, more)
  {
    StillShowsAll(nodes[..|nodes| - 1], trees, finished, more);
    assert nodes == nodes[..|nodes| - 1] + [open[|open| - 1]];
  }

  /** Taking a symbol off the stack finishes it. */
  lemma Popped(roots: seq<DocumentSymbol>, open: seq<DocumentSymbol>, s: State, finished: set<DocumentSymbol>)
    requires open != [] && Holds(roots, open, s, finished)
    ensures Holds(roots, open[..|open| - 1], CloseLast(s), finished + {open[|open| - 1]})
  {
    hide Level, Shows;
    var n, last, more := |open| - 1, open[|open| - 1], finished + {open[|open| - 1]};
    var rest, t := open[..n], CloseLast(s);
    assert Shows(last, s.open[n], more) by {
      LastShows(open, s.open[n], finished, more);
    }
    if n == 0 {
      LevelFinished(roots, s.roots, open, s.open[n], finished, more);
    } else {
      LevelBelow(roots, s.roots, open, 0, finished, more);
      LevelFinished(open[n - 1].children, s.open[n - 1].children, open, s.open[n], finished, more);
      forall k | 0 <= k < n - 1 ensures Level(open[k].children, s.open[k].children, rest, k + 1, more) {
        LevelBelow(open[k].children, s.open[k].children, open, k + 1, finished, more);
      }
    }
  }

  lemma LastShows(open: seq<DocumentSymbol>, tree: Tree, finished: set<DocumentSymbol>, more: set<DocumentSymbol>)
    requires open != [] && more == finished + {open[|open| - 1]} && open[|open| - 1].entry == tree.entry
    requires Level(open[|open| - 1].children, tree.children, open, |open|, finished)
    ensures Shows(open[|open| - 1], tree, more)
  {
    StillShowsAll(open[|open| - 1].children, tree.children, finished, more);
  }

  ghost function Elements(nodes: seq<DocumentSymbol>): set<DocumentSymbol> {
    set o | o in nodes
  }

  lemma LastElement(nodes: seq<DocumentSymbol>, finished: set<DocumentSymbol>)
    requires nodes != []
    ensures finished + {nodes[|nodes| - 1]} + Elements(nodes[..|nodes| - 1]) == finished + Elements(nodes)
  {
    assert nodes == nodes[..|nodes| - 1] + [nodes[|nodes| - 1]];
  }

  /** When the input is used up, the symbols still open are finished too. */
  lemma {:induction false} AllFinished(roots: seq<DocumentSymbol>, open: seq<DocumentSymbol>, s: State,
                                       finished: set<DocumentSymbol>)
    requires Holds(roots, open, s, finished)
    ensures ShowsAll(roots, CloseAll(s), finished + Elements(open))
    decreases |open|
  {
    if open == [] {
      hide ShowsAll;
      assert finished + Elements(open) == finished;
    } else {
      hide *;
      LastElement(open, finished);
      Popped(roots, open, s, finished);
      AllFinished(roots, open[..|open| - 1], CloseLast(s), finished + {open[|open| - 1]});
      ClosesOne(roots, open, s, finished);
    }
  }

  lemma ClosesOne(roots: seq<DocumentSymbol>, open: seq<DocumentSymbol>, s: State, finished: set<DocumentSymbol>)
    requires Holds(roots, open, s, finished) && open != []
    ensures s.open != [] && CloseAll(s) == CloseAll(CloseLast(s))
  {
  }

  /** Puts a new symbol among the children of the innermost open one, or among the roots. */
  method AddTo(roots: seq<DocumentSymbol>, open: seq<DocumentSymbol>, node: DocumentSymbol, ghost s: State,
               ghost finished: set<DocumentSymbol>)
    returns (longerRoots: seq<DocumentSymbol>)
    requires Holds(roots, open, s, finished) && node !in finished && node !in open && node.children == []
    modifies if open == [] then {} else {open[|open| - 1]}
    ensures Holds(longerRoots, open + [node], s.(open := s.open + [Tree(node.entry, [])]), finished)
  {
    hide Shows;
    if open == [] {
      longerRoots := roots + [node];
    } else {
      var parent := open[|open| - 1];
      parent.children := parent.children + [node];
      longerRoots := roots;
    }
    ghost var longer := open + [node];
    forall k | 0 <= k < |open| ensures Level(open[k].children, s.open[k].children, longer, k + 1, finished) {
      assert old(Level(open[k].children, s.open[k].children, open, k + 1, finished));
    }
  }

  method NestSymbolEntries(entries: seq<SymbolEntry>)
    returns (roots: seq<DocumentSymbol>, ghost nodes: set<DocumentSymbol>)
    ensures fresh(nodes) && ShowsAll(roots, Nest(SortEntries(entries)), nodes)
  {
    hide *;
    assert Nest(SortEntries(entries)) == CloseAll(Run(SortEntries(entries))) by {
      NestIs(SortEntries(entries));
    }
    var sorted := SortEntries(entries);
    var open: seq<DocumentSymbol> := [];
    roots := [];
    ghost var s, finished: set<DocumentSymbol>, made: set<DocumentSymbol> := State([], []), {}, {};
    Initially(sorted, roots, open);
    for i := 0 to |sorted|
      invariant s == Run(sorted[..i]) && Holds(roots, open, s, finished)
      invariant fresh(made) && finished + Elements(open) <= made
    {
      var node := new DocumentSymbol(sorted[i]);
      while open != [] && !IsStrictlyInside(node.entry.range, open[|open| - 1].entry.range)
        invariant Holds(roots, open, s, finished)
        invariant CloseOutside(s, sorted[i].range) == CloseOutside(Run(sorted[..i]), sorted[i].range)
        invariant finished + Elements(open) <= made && node !in made && node.children == []
        decreases |open|
      {
        Popped(roots, open, s, finished);
        ClosesNext(roots, open, s, finished, sorted[i].range);
        LastElement(open, finished);
        finished, s := finished + {open[|open| - 1]}, CloseLast(s);
        open := open[..|open| - 1];
      }
      Closed(roots, open, s, finished, sorted, i);
      OneMoreElement(open, node);
      LastIsElement(open);
      roots := AddTo(roots, open, node, s, finished);
      open := open + [node];
      s, made := Run(sorted[..i + 1]), made + {node};
    }
    assert sorted[..|sorted|] == sorted;
    AllFinished(roots, open, s, finished);
    nodes := finished + Elements(open);
  }

  lemma LastIsElement(nodes: seq<DocumentSymbol>)
    ensures nodes != [] ==> nodes[|nodes| - 1] in Elements(nodes)
  {
  }

  lemma OneMoreElement(nodes: seq<DocumentSymbol>, node: DocumentSymbol)
    ensures Elements(nodes + [node]) == Elements(nodes) + {node}
    ensures forall n :: n in Elements(nodes) <==> n in nodes
  {
  }

  lemma Initially(sorted: seq<SymbolEntry>, roots: seq<DocumentSymbol>, open: seq<DocumentSymbol>)
    requires roots == [] && open == []
    ensures Run(sorted[..0]) == State([], []) && Holds(roots, open, State([], []), {}) && Elements(open) == {}
  {
  }

  lemma ClosesNext(roots: seq<DocumentSymbol>, open: seq<DocumentSymbol>, s: State, finished: set<DocumentSymbol>,
                   range: Range)
    requires Holds(roots, open, s, finished) && open != [] && !IsStrictlyInside(range, open[|open| - 1].entry.range)
    ensures s.open != [] && CloseOutside(s, range) == CloseOutside(CloseLast(s), range)
  {
  }

  lemma Closed(roots: seq<DocumentSymbol>, open: seq<DocumentSymbol>, s: State, finished: set<DocumentSymbol>,
               sorted: seq<SymbolEntry>, i: nat)
    requires i < |sorted| && Holds(roots, open, s, finished)
    requires open != [] ==> IsStrictlyInside(sorted[i].range, open[|open| - 1].entry.range)
    requires CloseOutside(s, sorted[i].range) == CloseOutside(Run(sorted[..i]), sorted[i].range)
    ensures Run(sorted[..i + 1]) == s.(open := s.open + [Tree(sorted[i], [])])
  {
    assert sorted[..i + 1][..i] == sorted[..i];
  }
}
