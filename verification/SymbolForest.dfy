/** Nesting document symbols by range: what the stack of open symbols builds, and why each parent is right. */
module SymbolForest {
  import opened Options
  import opened Ranges

  datatype SymbolEntry = SymbolEntry(name: string, kind: int, range: Range, selectionRange: Range)

  function ComparePositions(a: Position, b: Position): int {
    if a.line != b.line then a.line - b.line else a.character - b.character
  }

  predicate AtMost(a: Position, b: Position) {
    a.line < b.line || (a.line == b.line && a.character <= b.character)
  }

  predicate RangeContains(outer: Range, inner: Range) {
    AtMost(outer.start, inner.start) && AtMost(inner.end, outer.end)
  }

  predicate IsStrictlyInside(inner: Range, outer: Range) {
    RangeContains(outer, inner) && outer != inner
  }

  // ----- the order

  /** Earlier start first, and for the same start the larger symbol first. */
  function Compare(a: SymbolEntry, b: SymbolEntry): int {
    var byStart := ComparePositions(a.range.start, b.range.start);
    if byStart != 0 then byStart else ComparePositions(b.range.end, a.range.end)
  }

  predicate IsSorted(s: seq<SymbolEntry>) {
    forall i, j :: 0 <= i < j < |s| ==> Compare(s[i], s[j]) <= 0
  }

  /** Places an entry after those it is not before, so equal entries keep their order. */
  function Insert(s: seq<SymbolEntry>, entry: SymbolEntry): (r: seq<SymbolEntry>)
    ensures multiset(r) == multiset(s) + multiset{entry}
  {
    if s == [] || Compare(s[|s| - 1], entry) <= 0 then s + [entry]
    else
      var last := s[|s| - 1];
      assert s == s[..|s| - 1] + [last];
      Insert(s[..|s| - 1], entry) + [last]
  }

  function SortEntries(entries: seq<SymbolEntry>): (r: seq<SymbolEntry>)
    ensures multiset(r) == multiset(entries)
  {
    if entries == [] then []
    else
      assert entries == entries[..|entries| - 1] + [entries[|entries| - 1]];
      Insert(SortEntries(entries[..|entries| - 1]), entries[|entries| - 1])
  }

  lemma CompareIsAnOrder(a: SymbolEntry, b: SymbolEntry, c: SymbolEntry)
    ensures Compare(a, b) > 0 ==> Compare(b, a) <= 0
    ensures Compare(a, b) <= 0 && Compare(b, c) <= 0 ==> Compare(a, c) <= 0
  {
  }

  lemma {:induction false} InsertSorts(s: seq<SymbolEntry>, entry: SymbolEntry)
    requires IsSorted(s)
    ensures IsSorted(Insert(s, entry))
  {
    hide Compare;
    if s == [] {
    } else if Compare(s[|s| - 1], entry) <= 0 {
      forall e | e in s ensures Compare(e, entry) <= 0 {
        CompareIsAnOrder(e, s[|s| - 1], entry);
      }
    } else {
      var rest, last := s[..|s| - 1], s[|s| - 1];
      InsertSorts(rest, entry);
      CompareIsAnOrder(last, entry, entry);
      forall e | e in Insert(rest, entry) ensures Compare(e, last) <= 0 {
        assert e in multiset(Insert(rest, entry));
        assert e in multiset(rest) + multiset{entry};
      }
    }
  }

  lemma {:induction false} SortSorts(entries: seq<SymbolEntry>)
    ensures IsSorted(SortEntries(entries))
  {
    if entries != [] {
      SortSorts(entries[..|entries| - 1]);
      InsertSorts(SortEntries(entries[..|entries| - 1]), entries[|entries| - 1]);
    }
  }

  /** Of two sorted symbols the first starts earlier, or they start together and it ends no earlier. */
  lemma SortedByStart(entries: seq<SymbolEntry>, i: nat, j: nat)
    requires i < j < |SortEntries(entries)|
    ensures var a, b := SortEntries(entries)[i].range, SortEntries(entries)[j].range;
            || a.start.line < b.start.line
            || (a.start.line == b.start.line && a.start.character < b.start.character)
            || (a.start == b.start && b.end.line < a.end.line)
            || (a.start == b.start && b.end.line == a.end.line && b.end.character <= a.end.character)
  {
    SortSorts(entries);
    assert Compare(SortEntries(entries)[i], SortEntries(entries)[j]) <= 0;
  }

  /** The symbols of one range, in order. */
  function WithRange(entries: seq<SymbolEntry>, range: Range): seq<SymbolEntry> {
    if entries == [] then []
    else
      var last := entries[|entries| - 1];
      WithRange(entries[..|entries| - 1], range) + if last.range == range then [last] else []
  }

  lemma WithRangeNext(entries: seq<SymbolEntry>, entry: SymbolEntry, range: Range)
    ensures WithRange(entries + [entry], range) ==
            WithRange(entries, range) + if entry.range == range then [entry] else []
  {
    assert (entries + [entry])[..|entries|] == entries;
  }

  lemma {:induction false} InsertIsStable(s: seq<SymbolEntry>, entry: SymbolEntry, range: Range)
    ensures WithRange(Insert(s, entry), range) == WithRange(s + [entry], range)
  {
    hide WithRange;
    if s != [] && Compare(s[|s| - 1], entry) > 0 {
      var rest, last := s[..|s| - 1], s[|s| - 1];
      assert s == rest + [last] && last.range != entry.range;
      InsertIsStable(rest, entry, range);
      WithRangeNext(Insert(rest, entry), last, range);
      WithRangeNext(rest, entry, range);
      WithRangeNext(rest, last, range);
      WithRangeNext(s, entry, range);
    }
  }

  /** Symbols of the same range keep their order. */
  lemma {:induction false} SortIsStable(entries: seq<SymbolEntry>, range: Range)
    ensures WithRange(SortEntries(entries), range) == WithRange(entries, range)
  {
    if entries != [] {
      hide WithRange, Insert;
      var front, last := entries[..|entries| - 1], entries[|entries| - 1];
      assert entries == front + [last];
      SortIsStable(front, range);
      InsertIsStable(SortEntries(front), last, range);
      WithRangeNext(SortEntries(front), last, range);
      WithRangeNext(front, last, range);
    }
  }

  /** A position is in a range, both ends included. */
  predicate Covers(r: Range, p: Position) {
    (r.start.line < p.line || (r.start.line == p.line && r.start.character <= p.character)) &&
    (p.line < r.end.line || (p.line == r.end.line && p.character <= r.end.character))
  }

  /** A range is strictly inside another when all its positions are in that and some position of that is not in it. */
  lemma InsideIsCovered(inner: Range, outer: Range)
    requires Covers(inner, inner.start) // it does not end before it starts
    ensures IsStrictlyInside(inner, outer) <==>
            (forall p :: Covers(inner, p) ==> Covers(outer, p)) && exists p :: Covers(outer, p) && !Covers(inner, p)
  {
    assert Covers(inner, inner.end);
    if IsStrictlyInside(inner, outer) {
      var p := if outer.start != inner.start then outer.start else outer.end;
      assert Covers(outer, p) && !Covers(inner, p);
    }
  }

  // ----- the stack

  datatype Tree = Tree(entry: SymbolEntry, children: seq<Tree>)

  /** The finished trees at the top level, and the open symbols, each with its finished children. */
  datatype State = State(roots: seq<Tree>, open: seq<Tree>)

  function CloseLast(s: State): (t: State)
    requires s.open != []
    ensures |t.open| == |s.open| - 1
  {
    var last, rest := s.open[|s.open| - 1], s.open[..|s.open| - 1];
    if rest == [] then State(s.roots + [last], [])
    else
      var parent := rest[|rest| - 1];
      State(s.roots, rest[|rest| - 1 := Tree(parent.entry, parent.children + [last])])
  }

  /** Closes the symbols that a range is not strictly inside of, from the innermost on. */
  function CloseOutside(s: State, range: Range): (t: State)
    ensures t.open != [] ==> IsStrictlyInside(range, t.open[|t.open| - 1].entry.range)
    decreases |s.open|
  {
    if s.open == [] || IsStrictlyInside(range, s.open[|s.open| - 1].entry.range) then s
        else CloseOutside(CloseLast(s), range)
  }

  function Add(s: State, entry: SymbolEntry): State {
    var t := CloseOutside(s, entry.range);
    t.(open := t.open + [Tree(entry, [])])
  }

  function Run(sorted: seq<SymbolEntry>): State {
    if sorted == [] then State([], []) else Add(Run(sorted[..|sorted| - 1]), sorted[|sorted| - 1])
  }

  function CloseAll(s: State): seq<Tree>
    decreases |s.open|
  {
    if s.open == [] then s.roots else CloseAll(CloseLast(s))
  }

  function Nest(sorted: seq<SymbolEntry>): seq<Tree> {
    CloseAll(Run(sorted))
  }

  // ----- nothing is lost

  function Preorder(t: Tree): seq<SymbolEntry> {
    [t.entry] + PreorderAll(t.children)
  }

  function PreorderAll(trees: seq<Tree>): seq<SymbolEntry> {
    if trees == [] then [] else PreorderAll(trees[..|trees| - 1]) + Preorder(trees[|trees| - 1])
  }

  function Contents(s: State): seq<SymbolEntry> {
    PreorderAll(s.roots) + PreorderAll(s.open)
  }

  lemma PreorderOneMore(trees: seq<Tree>, t: Tree)
    ensures PreorderAll(trees + [t]) == PreorderAll(trees) + Preorder(t)
  {
    assert (trees + [t])[..|trees|] == trees;
  }

  lemma ClosingKeeps(s: State)
    requires s.open != []
    ensures Contents(CloseLast(s)) == Contents(s)
  {
    hide Preorder, PreorderAll;
    var last, rest := s.open[|s.open| - 1], s.open[..|s.open| - 1];
    assert s.open == rest + [last];
    PreorderOneMore(rest, last);
    if rest == [] {
      PreorderOneMore(s.roots, last);
      NoTrees();
    } else {
      var parent, outer := rest[|rest| - 1], rest[..|rest| - 1];
      var longer := Tree(parent.entry, parent.children + [last]);
      assert rest == outer + [parent] && rest[|rest| - 1 := longer] == outer + [longer];
      PreorderOneMore(outer, parent);
      PreorderOneMore(outer, longer);
      Longer(parent, last);
    }
  }

  lemma NoTrees()
    ensures PreorderAll([]) == []
  {
  }

  lemma Longer(parent: Tree, last: Tree)
    ensures Preorder(Tree(parent.entry, parent.children + [last])) == Preorder(parent) + Preorder(last)
  {
    PreorderOneMore(parent.children, last);
  }

  lemma {:induction false} ClosingOutsideKeeps(s: State, range: Range)
    ensures Contents(CloseOutside(s, range)) == Contents(s)
    decreases |s.open|
  {
    hide Contents;
    if s.open != [] && !IsStrictlyInside(range, s.open[|s.open| - 1].entry.range) {
      ClosingKeeps(s);
      ClosingOutsideKeeps(CloseLast(s), range);
    }
  }

  lemma {:induction false} ClosingAllKeeps(s: State)
    ensures PreorderAll(CloseAll(s)) == Contents(s)
    decreases |s.open|
  {
    hide PreorderAll;
    if s.open != [] {
      ClosingKeeps(s);
      ClosingAllKeeps(CloseLast(s));
    } else {
      NoTrees();
    }
  }

  lemma {:induction false} RunKeeps(sorted: seq<SymbolEntry>)
    ensures Contents(Run(sorted)) == sorted
  {
    hide PreorderAll, CloseOutside;
    if sorted == [] {
      NoTrees();
    } else {
      var rest, last := sorted[..|sorted| - 1], sorted[|sorted| - 1];
      RunKeeps(rest);
      ClosingOutsideKeeps(Run(rest), last.range);
      var t := CloseOutside(Run(rest), last.range);
      PreorderOneMore(t.open, Tree(last, []));
      NoTrees();
      assert sorted == rest + [last];
    }
  }

  /** The forest read in preorder is the sorted input: nothing is lost, added or moved. */
  lemma {:induction false} PreorderIsSortedInput(entries: seq<SymbolEntry>)
    ensures PreorderAll(Nest(SortEntries(entries))) == SortEntries(entries)
    ensures IsSorted(PreorderAll(Nest(SortEntries(entries))))
    ensures multiset(PreorderAll(Nest(SortEntries(entries)))) == multiset(entries)
  {
    hide PreorderAll, IsSorted;
    SortSorts(entries);
    RunKeeps(SortEntries(entries));
    ClosingAllKeeps(Run(SortEntries(entries)));
  }

  // ----- parents

  /** Whether a parent suits a child, given all symbols: the child is strictly inside of it, and of no symbol strictly
      inside of it. Without a parent, the child is strictly inside of no symbol. */
  predicate Suits(parent: Option<SymbolEntry>, child: SymbolEntry, all: seq<SymbolEntry>) {
    match parent
    case None => forall e :: e in all ==> !IsStrictlyInside(child.range, e.range)
    case Some(p) =>
      IsStrictlyInside(child.range, p.range) &&
      forall e :: e in all ==> !(IsStrictlyInside(child.range, e.range) && IsStrictlyInside(e.range, p.range))
  }

  predicate SuitsAll(parent: Option<SymbolEntry>, trees: seq<Tree>, all: seq<SymbolEntry>)
    decreases trees
  {
    forall k :: 0 <= k < |trees| ==> Suits(parent, trees[k].entry, all) && Nested(trees[k], all)
  }

  /** Every symbol of a tree has a parent that suits it. */
  predicate Nested(t: Tree, all: seq<SymbolEntry>)
    decreases t
  {
    SuitsAll(Some(t.entry), t.children, all)
  }

  function ParentOf(open: seq<Tree>, k: nat): Option<SymbolEntry>
    requires k <= |open|
  {
    if k == 0 then None else Some(open[k - 1].entry)
  }

  predicate NestedState(s: State, all: seq<SymbolEntry>) {
    SuitsAll(None, s.roots, all) &&
    forall k :: 0 <= k < |s.open| ==> Suits(ParentOf(s.open, k), s.open[k].entry, all) && Nested(s.open[k], all)
  }

  lemma NestedLonger(parent: Tree, last: Tree, all: seq<SymbolEntry>)
    requires Nested(parent, all) && Nested(last, all) && Suits(Some(parent.entry), last.entry, all)
    ensures Nested(Tree(parent.entry, parent.children + [last]), all)
  {
    hide Suits;
  }

  lemma ClosingStaysNested(s: State, all: seq<SymbolEntry>)
    requires s.open != [] && NestedState(s, all)
    ensures NestedState(CloseLast(s), all)
  {
    hide Suits, Nested;
    var n := |s.open|;
    assert Suits(ParentOf(s.open, n - 1), s.open[n - 1].entry, all);
    if n > 1 {
      NestedLonger(s.open[n - 2], s.open[n - 1], all);
    }
    var t := CloseLast(s);
    forall k | 0 <= k < |t.open| ensures Suits(ParentOf(t.open, k), t.open[k].entry, all) && Nested(t.open[k], all) {
      assert ParentOf(t.open, k) == ParentOf(s.open, k) && t.open[k].entry == s.open[k].entry;
    }
  }

  lemma {:induction false} ClosingOutsideStaysNested(s: State, range: Range, all: seq<SymbolEntry>)
    requires NestedState(s, all)
    ensures NestedState(CloseOutside(s, range), all)
    decreases |s.open|
  {
    hide NestedState;
    if s.open != [] && !IsStrictlyInside(range, s.open[|s.open| - 1].entry.range) {
      ClosingStaysNested(s, all);
      ClosingOutsideStaysNested(CloseLast(s), range, all);
    }
  }

  lemma {:induction false} ClosingAllStaysNested(s: State, all: seq<SymbolEntry>)
    requires NestedState(s, all)
    ensures SuitsAll(None, CloseAll(s), all)
    decreases |s.open|
  {
    if s.open != [] {
      hide NestedState;
      ClosingStaysNested(s, all);
      ClosingAllStaysNested(CloseLast(s), all);
    }
  }

  /** The parent that an entry gets. */
  function Parent(s: State, entry: SymbolEntry): Option<SymbolEntry> {
    var t := CloseOutside(s, entry.range);
    ParentOf(t.open, |t.open|)
  }

  lemma AddingStaysNested(s: State, entry: SymbolEntry, all: seq<SymbolEntry>)
    requires NestedState(s, all) && Suits(Parent(s, entry), entry, all)
    ensures NestedState(Add(s, entry), all)
  {
    hide Suits, CloseOutside;
    ClosingOutsideStaysNested(s, entry.range, all);
    var t, u := CloseOutside(s, entry.range), Add(s, entry);
    forall k | 0 <= k < |u.open| ensures Suits(ParentOf(u.open, k), u.open[k].entry, all) && Nested(u.open[k], all) {
      assert ParentOf(u.open, k) == ParentOf(t.open, k);
      assert k < |t.open| ==> u.open[k] == t.open[k];
    }
  }

  lemma {:induction false} RunNests(sorted: seq<SymbolEntry>, all: seq<SymbolEntry>)
    requires forall k :: 0 <= k < |sorted| ==> Suits(Parent(Run(sorted[..k]), sorted[k]), sorted[k], all)
    ensures NestedState(Run(sorted), all)
  {
    hide Suits, Parent, Add;
    if sorted != [] {
      var rest, last := sorted[..|sorted| - 1], sorted[|sorted| - 1];
      assert forall k :: 0 <= k < |rest| ==> rest[..k] == sorted[..k];
      RunNests(rest, all);
      AddingStaysNested(Run(rest), last, all);
    }
  }

  /** Whatever the ranges, every child is strictly inside its parent. */
  lemma ChildrenAreInside(entries: seq<SymbolEntry>)
    ensures SuitsAll(None, Nest(SortEntries(entries)), [])
  {
    hide NestedState, Nested, CloseOutside;
    var sorted := SortEntries(entries);
    RunNests(sorted, []);
    ClosingAllStaysNested(Run(sorted), []);
  }

  // ----- smallest parents

  predicate WellFormed(r: Range) {
    AtMost(r.start, r.end)
  }

  predicate NestedOrDisjoint(a: Range, b: Range) {
    RangeContains(a, b) || RangeContains(b, a) || AtMost(a.end, b.start) || AtMost(b.end, a.start)
  }

  predicate AllNestedOrDisjoint(entries: seq<SymbolEntry>) {
    (forall e :: e in entries ==> WellFormed(e.range)) &&
    forall d, e :: d in entries && e in entries ==> NestedOrDisjoint(d.range, e.range)
  }

  /** An earlier symbol around a later one is around every symbol between, unless that one is around the later one. */
  lemma ContainsBetween(o: SymbolEntry, f: SymbolEntry, r: SymbolEntry)
    requires WellFormed(o.range) && WellFormed(f.range) && WellFormed(r.range) && NestedOrDisjoint(o.range, f.range)
    requires Compare(o, f) <= 0 && Compare(f, r) <= 0
    requires IsStrictlyInside(r.range, o.range) && !IsStrictlyInside(r.range, f.range)
    ensures IsStrictlyInside(f.range, o.range)
  {
  }

  lemma EarlierIsNotInside(e: SymbolEntry, f: SymbolEntry)
    requires Compare(e, f) <= 0
    ensures !IsStrictlyInside(e.range, f.range)
  {
  }

  function OpenEntries(s: State): (entries: seq<SymbolEntry>)
    ensures |entries| == |s.open| && forall k :: 0 <= k < |entries| ==> entries[k] == s.open[k].entry
  {
    seq(|s.open|, k requires 0 <= k < |s.open| => s.open[k].entry)
  }

  /** The open symbols that stay open for a range. */
  function Kept(open: seq<SymbolEntry>, range: Range): (kept: seq<SymbolEntry>)
    ensures kept <= open
  {
    if open == [] || IsStrictlyInside(range, open[|open| - 1].range) then open else Kept(open[..|open| - 1], range)
  }

  lemma {:induction false} ClosingKeepsOpen(s: State, range: Range)
    ensures OpenEntries(CloseOutside(s, range)) == Kept(OpenEntries(s), range)
    decreases |s.open|
  {
    hide IsStrictlyInside;
    if s.open != [] && !IsStrictlyInside(range, s.open[|s.open| - 1].entry.range) {
      ClosingKeepsOpen(CloseLast(s), range);
      assert OpenEntries(CloseLast(s)) == OpenEntries(s)[..|s.open| - 1];
    }
  }

  lemma {:induction false} KeptTwice(open: seq<SymbolEntry>, f: Range, r: Range)
    requires forall o :: o in open && IsStrictlyInside(r, o.range) ==> IsStrictlyInside(f, o.range)
    ensures Kept(Kept(open, f), r) == Kept(open, r)
  {
    hide IsStrictlyInside;
    if open != [] && !IsStrictlyInside(f, open[|open| - 1].range) {
      KeptTwice(open[..|open| - 1], f, r);
    }
  }

  lemma {:induction false} OpenIsSeen(sorted: seq<SymbolEntry>)
    ensures forall o :: o in OpenEntries(Run(sorted)) ==> o in sorted
  {
    if sorted != [] {
      hide Kept, CloseOutside;
      var front := sorted[..|sorted| - 1];
      OpenIsSeen(front);
      OpenAfter(sorted);
      assert forall o :: o in front ==> o in sorted;
      assert Kept(OpenEntries(Run(front)), sorted[|sorted| - 1].range) <= OpenEntries(Run(front));
    }
  }

  lemma OpenAfter(sorted: seq<SymbolEntry>)
    requires sorted != []
    ensures var last := sorted[|sorted| - 1];
            OpenEntries(Run(sorted)) == Kept(OpenEntries(Run(sorted[..|sorted| - 1])), last.range) + [last]
  {
    hide *;
    RunStep(sorted);
    AddOpens(Run(sorted[..|sorted| - 1]), sorted[|sorted| - 1]);
  }

  lemma RunStep(sorted: seq<SymbolEntry>)
    requires sorted != []
    ensures Run(sorted) == Add(Run(sorted[..|sorted| - 1]), sorted[|sorted| - 1])
  {
  }

  lemma AddOpens(s: State, entry: SymbolEntry)
    ensures OpenEntries(Add(s, entry)) == Kept(OpenEntries(s), entry.range) + [entry]
  {
    hide CloseOutside, Kept;
    ClosingKeepsOpen(s, entry.range);
  }

  function Innermost(open: seq<SymbolEntry>): Option<SymbolEntry> {
    if open == [] then None else Some(open[|open| - 1])
  }

  lemma SuitsItself(open: seq<SymbolEntry>, f: SymbolEntry, r: SymbolEntry, before: seq<SymbolEntry>)
    requires IsStrictlyInside(r.range, f.range) && forall e :: e in before ==> !IsStrictlyInside(e.range, f.range)
    ensures Suits(Innermost(Kept(Kept(open, f.range) + [f], r.range)), r, before)
  {
    hide IsStrictlyInside;
    var longer := Kept(open, f.range) + [f];
    assert longer[|longer| - 1] == f && Kept(longer, r.range) == longer;
  }

  lemma KeptClosesLast(open: seq<SymbolEntry>, f: SymbolEntry, range: Range)
    requires !IsStrictlyInside(range, f.range)
    ensures Kept(open + [f], range) == Kept(open, range)
  {
    assert (open + [f])[..|open|] == open;
  }

  lemma SuitsAsBefore(open: seq<SymbolEntry>, f: SymbolEntry, r: SymbolEntry, before: seq<SymbolEntry>)
    requires !IsStrictlyInside(r.range, f.range)
    requires forall o :: o in open && IsStrictlyInside(r.range, o.range) ==> IsStrictlyInside(f.range, o.range)
    requires Suits(Innermost(Kept(open, r.range)), r, before)
    ensures Suits(Innermost(Kept(Kept(open, f.range) + [f], r.range)), r, before + [f])
  {
    hide IsStrictlyInside, Kept, Innermost;
    KeptClosesLast(Kept(open, f.range), f, r.range);
    KeptTwice(open, f.range, r.range);
    assert forall e :: e in before + [f] ==> e in before || e == f;
  }

  /** Of the symbols before an entry, the innermost that stays open for it is the smallest around it. */
  lemma {:induction false} InnermostSuits(sorted: seq<SymbolEntry>, r: SymbolEntry)
    requires AllNestedOrDisjoint(sorted + [r]) && IsSorted(sorted + [r])
    ensures Suits(Innermost(Kept(OpenEntries(Run(sorted)), r.range)), r, sorted)
    decreases |sorted|
  {
    hide *;
    if sorted == [] {
      NothingOpen(r);
    } else {
      var rest, f := sorted[..|sorted| - 1], sorted[|sorted| - 1];
      assert sorted == rest + [f];
      OpenAfter(sorted);
      OneLess(rest, f, r);
      if IsStrictlyInside(r.range, f.range) {
        SuitsItself(OpenEntries(Run(rest)), f, r, sorted);
      } else {
        InnermostSuits(rest, r);
        OpenIsSeen(rest);
        SuitsAsBefore(OpenEntries(Run(rest)), f, r, rest);
      }
    }
  }

  lemma NothingOpen(r: SymbolEntry)
    ensures Suits(Innermost(Kept(OpenEntries(Run([])), r.range)), r, [])
  {
  }

  /** What holds of a sorted list holds without the entry before the last. */
  lemma OneLess(rest: seq<SymbolEntry>, f: SymbolEntry, r: SymbolEntry)
    requires AllNestedOrDisjoint(rest + [f] + [r]) && IsSorted(rest + [f] + [r])
    ensures AllNestedOrDisjoint(rest + [r]) && IsSorted(rest + [r])
    ensures forall e :: e in rest + [f] ==> !IsStrictlyInside(e.range, f.range)
    ensures !IsStrictlyInside(r.range, f.range) ==>
              forall o :: o in rest && IsStrictlyInside(r.range, o.range) ==> IsStrictlyInside(f.range, o.range)
  {
    hide Compare, IsStrictlyInside, NestedOrDisjoint, WellFormed;
    var all, fewer := rest + [f] + [r], rest + [r];
    assert forall e :: e in fewer ==> e in all;
    assert f in all && r in all;
    assert all[|rest|] == f && all[|rest| + 1] == r && forall i :: 0 <= i < |rest| ==> all[i] == rest[i];
    forall i, j | 0 <= i < j < |fewer| ensures Compare(fewer[i], fewer[j]) <= 0 {
      assert Compare(all[i], all[if j < |rest| then j else j + 1]) <= 0;
    }
    NotInsideItself(f);
    forall e | e in rest ensures !IsStrictlyInside(e.range, f.range) {
      var i :| 0 <= i < |rest| && rest[i] == e;
      assert Compare(all[i], all[|rest|]) <= 0;
      EarlierIsNotInside(e, f);
    }
    if !IsStrictlyInside(r.range, f.range) {
      forall o | o in rest && IsStrictlyInside(r.range, o.range) ensures IsStrictlyInside(f.range, o.range) {
        var i :| 0 <= i < |rest| && rest[i] == o;
        assert o in all && Compare(all[i], all[|rest|]) <= 0;
        ContainsBetween(o, f, r);
      }
    }
  }

  lemma NotInsideItself(e: SymbolEntry)
    ensures !IsStrictlyInside(e.range, e.range)
  {
  }

  lemma ParentIsInnermost(s: State, entry: SymbolEntry)
    ensures Parent(s, entry) == Innermost(Kept(OpenEntries(s), entry.range))
  {
    hide CloseOutside, Kept;
    ClosingKeepsOpen(s, entry.range);
  }

  /** An entry is not strictly inside one that comes later. */
  lemma SuitsAmongAll(sorted: seq<SymbolEntry>, k: nat, parent: Option<SymbolEntry>)
    requires k < |sorted| && IsSorted(sorted) && Suits(parent, sorted[k], sorted[..k])
    ensures Suits(parent, sorted[k], sorted)
  {
    hide Compare, IsStrictlyInside;
    forall e | e in sorted && IsStrictlyInside(sorted[k].range, e.range) ensures e in sorted[..k] {
      var i :| 0 <= i < |sorted| && sorted[i] == e;
      NotInsideItself(e);
      if i > k {
        EarlierIsNotInside(sorted[k], e);
      }
    }
  }

  lemma PrefixesStay(sorted: seq<SymbolEntry>, k: nat)
    requires k < |sorted| && IsSorted(sorted) && AllNestedOrDisjoint(sorted)
    ensures IsSorted(sorted[..k] + [sorted[k]]) && AllNestedOrDisjoint(sorted[..k] + [sorted[k]])
  {
    hide Compare, NestedOrDisjoint, WellFormed;
    var prefix := sorted[..k] + [sorted[k]];
    assert forall i :: 0 <= i < |prefix| ==> prefix[i] == sorted[i];
    assert forall e :: e in prefix ==> e in sorted;
  }

  lemma SameElements(entries: seq<SymbolEntry>, sorted: seq<SymbolEntry>)
    requires multiset(entries) == multiset(sorted)
    ensures forall e :: e in entries <==> e in sorted
  {
    forall e ensures e in entries <==> e in sorted {
      assert e in multiset(entries) <==> e in multiset(sorted);
    }
  }

  /** With ranges that are nested or disjoint, each symbol's parent is a smallest symbol around it, and a symbol at the
      top level has none around it. */
  lemma ParentsAreSmallest(entries: seq<SymbolEntry>)
    requires AllNestedOrDisjoint(entries)
    ensures SuitsAll(None, Nest(SortEntries(entries)), SortEntries(entries))
  {
    hide *;
    var sorted := SortEntries(entries);
    SortSorts(entries);
    SameElements(entries, sorted);
    assert AllNestedOrDisjoint(sorted) by {
      SameNesting(entries, sorted);
    }
    forall k | 0 <= k < |sorted| ensures Suits(Parent(Run(sorted[..k]), sorted[k]), sorted[k], sorted) {
      PrefixesStay(sorted, k);
      InnermostSuits(sorted[..k], sorted[k]);
      ParentIsInnermost(Run(sorted[..k]), sorted[k]);
      SuitsAmongAll(sorted, k, Parent(Run(sorted[..k]), sorted[k]));
    }
    RunNests(sorted, sorted);
    ClosingAllStaysNested(Run(sorted), sorted);
    NestIs(sorted);
  }

  lemma SameNesting(entries: seq<SymbolEntry>, sorted: seq<SymbolEntry>)
    requires AllNestedOrDisjoint(entries) && forall e :: e in entries <==> e in sorted
    ensures AllNestedOrDisjoint(sorted)
  {
    hide NestedOrDisjoint, WellFormed;
  }

  lemma NestIs(sorted: seq<SymbolEntry>)
    ensures Nest(sorted) == CloseAll(Run(sorted))
  {
  }
}
