/** Listing the descendants of a process, and freezing and killing its tree while the operating system runs on. */
module ProcessTree {
  import opened Sequences

  /** The state a listing shows: stopped covers T and t, and dead covers Z and X. */
  datatype ProcessState = Running | Stopped | Dead

  datatype ProcessEntry = ProcessEntry(pid: int, ppid: int, state: ProcessState)

  // ----- the descendants in a listing

  predicate IsChild(entries: seq<ProcessEntry>, parent: int, child: int) {
    exists i :: 0 <= i < |entries| && entries[i].pid == child && entries[i].ppid == parent
  }

  predicate DistinctPids(entries: seq<ProcessEntry>) {
    forall i, j :: 0 <= i < j < |entries| ==> entries[i].pid != entries[j].pid
  }

  /** A chain of processes, each listed as a child of the one before. */
  predicate IsChain(entries: seq<ProcessEntry>, chain: seq<int>) {
    chain != [] && forall k :: 0 <= k < |chain| - 1 ==> IsChild(entries, chain[k], chain[k + 1])
  }

  ghost predicate Reaches(entries: seq<ProcessEntry>, root: int, pid: int) {
    exists chain :: IsChain(entries, chain) && chain[0] == root && chain[|chain| - 1] == pid
  }

  lemma ReachesItself(entries: seq<ProcessEntry>, root: int)
    ensures Reaches(entries, root, root)
  {
    assert IsChain(entries, [root]) && [root][0] == root;
  }

  lemma ReachesChild(entries: seq<ProcessEntry>, root: int, parent: int, child: int)
    requires Reaches(entries, root, parent) && IsChild(entries, parent, child)
    ensures Reaches(entries, root, child)
  {
    var chain :| IsChain(entries, chain) && chain[0] == root && chain[|chain| - 1] == parent;
    var longer := chain + [child];
    assert IsChain(entries, longer) && longer[0] == root && longer[|longer| - 1] == child;
  }

  /** A set that holds the root and the children of its members holds everything the root reaches. */
  lemma ClosedHoldsReached(entries: seq<ProcessEntry>, root: int, seen: set<int>, pid: int)
    requires root in seen && forall p, c :: p in seen && IsChild(entries, p, c) ==> c in seen
    requires Reaches(entries, root, pid)
    ensures pid in seen
  {
    var chain :| IsChain(entries, chain) && chain[0] == root && chain[|chain| - 1] == pid;
    for k := 1 to |chain|
      invariant chain[k - 1] in seen
    {
      assert IsChild(entries, chain[k - 1], chain[k]);
    }
  }

  function ChildPids(entries: seq<ProcessEntry>, parent: int): seq<int> {
    if entries == [] then []
    else
      var last := entries[|entries| - 1];
      ChildPids(entries[..|entries| - 1], parent) + if last.ppid == parent then [last.pid] else []
  }

  lemma {:induction false} ChildPidsAreChildren(entries: seq<ProcessEntry>, parent: int, child: int)
    ensures child in ChildPids(entries, parent) <==> IsChild(entries, parent, child)
  {
    if entries != [] {
      var front, last := entries[..|entries| - 1], entries[|entries| - 1];
      ChildPidsAreChildren(front, parent, child);
      if IsChild(front, parent, child) {
        var i :| 0 <= i < |front| && front[i].pid == child && front[i].ppid == parent;
        assert entries[i] == front[i];
      }
    }
  }

  method GroupChildren(entries: seq<ProcessEntry>) returns (childrenOf: map<int, seq<int>>)
    ensures forall p :: (if p in childrenOf then childrenOf[p] else []) == ChildPids(entries, p)
  {
    childrenOf := map[];
    for n := 0 to |entries|
      invariant forall p :: (if p in childrenOf then childrenOf[p] else []) == ChildPids(entries[..n], p)
    {
      var entry := entries[n];
      assert entries[..n + 1][..n] == entries[..n];
      var children := if entry.ppid in childrenOf then childrenOf[entry.ppid] else [];
      childrenOf := childrenOf[entry.ppid := children + [entry.pid]];
    }
    assert entries[..|entries|] == entries;
  }

  /** Each process of the list has a parent that is the root or comes later. */
  ghost predicate BeforeAParent(entries: seq<ProcessEntry>, root: int, pids: seq<int>) {
    forall i :: 0 <= i < |pids| ==> ParentAfter(entries, root, pids, i)
  }

  ghost predicate ParentAfter(entries: seq<ProcessEntry>, root: int, pids: seq<int>, i: nat)
    requires i < |pids|
  {
    exists parent :: IsChild(entries, parent, pids[i]) && (parent == root || parent in pids[i + 1..])
  }

  function Concatenated(levels: seq<seq<int>>): seq<int> {
    if levels == [] then [] else levels[0] + Concatenated(levels[1..])
  }

  predicate HasParentIn(entries: seq<ProcessEntry>, parents: seq<int>, child: int) {
    exists p :: p in parents && IsChild(entries, p, child)
  }

  /** The level holds what was seen since, and each process of it has a parent in the frontier. */
  ghost predicate Gathered(
    entries: seq<ProcessEntry>, root: int, frontier: seq<int>, seen: set<int>, level: seq<int>, seen': set<int>
  ) {
    && (forall p :: p in level <==> p in seen' && p !in seen)
    && seen <= seen' && Distinct(level)
    && (forall p :: p in seen' ==> Reaches(entries, root, p))
    && forall c :: c in level ==> HasParentIn(entries, frontier, c)
  }

  lemma GatherChild(
    entries: seq<ProcessEntry>, root: int, frontier: seq<int>, seen: set<int>, level: seq<int>, seen': set<int>,
        parent: int, child: int
  )
    requires Gathered(entries, root, frontier, seen, level, seen')
    requires parent in frontier && Reaches(entries, root, parent) && IsChild(entries, parent, child)
    requires child !in seen'
    ensures Gathered(entries, root, frontier, seen, level + [child], seen' + {child})
  {
    hide IsChild, Reaches;
    ReachesChild(entries, root, parent, child);
    assert HasParentIn(entries, frontier, child);
  }

  ghost predicate ChildrenAreIn(entries: seq<ProcessEntry>, parents: seq<int>, seen: set<int>) {
    forall p, c :: p in parents && IsChild(entries, p, c) ==> c in seen
  }

  lemma NextParentsChildren(entries: seq<ProcessEntry>, parents: seq<int>, n: nat, seen: set<int>, seen': set<int>)
    requires n < |parents| && ChildrenAreIn(entries, parents[..n], seen) && seen <= seen'
    requires forall c :: c in ChildPids(entries, parents[n]) ==> c in seen'
    ensures ChildrenAreIn(entries, parents[..n + 1], seen')
  {
    hide IsChild, ChildPids;
    assert parents[..n + 1] == parents[..n] + [parents[n]];
    forall c | IsChild(entries, parents[n], c) ensures c in seen' {
      ChildPidsAreChildren(entries, parents[n], c);
    }
  }

  /** The children of one level that were not seen before. */
  method NextLevel(
    entries: seq<ProcessEntry>, root: int, childrenOf: map<int, seq<int>>, frontier: seq<int>, seen: set<int>
  ) returns (level: seq<int>, seen': set<int>)
    requires forall p :: (if p in childrenOf then childrenOf[p] else []) == ChildPids(entries, p)
    requires forall p :: p in seen ==> Reaches(entries, root, p)
    requires forall p :: p in frontier ==> p in seen
    ensures forall p :: p in level <==> p in seen' && p !in seen
    ensures seen <= seen' && Distinct(level)
    ensures forall p :: p in seen' ==> Reaches(entries, root, p)
    ensures forall p, c :: p in frontier && IsChild(entries, p, c) ==> c in seen'
    ensures forall c :: c in level ==> HasParentIn(entries, frontier, c)
  {
    level, seen' := [], seen;
    for n := 0 to |frontier|
      invariant Gathered(entries, root, frontier, seen, level, seen')
      invariant ChildrenAreIn(entries, frontier[..n], seen')
    {
      hide *;
      var parent := frontier[n];
      var children := if parent in childrenOf then childrenOf[parent] else [];
      assert children == ChildPids(entries, parent);
      ghost var before := seen';
      for m := 0 to |children|
        invariant Gathered(entries, root, frontier, seen, level, seen')
        invariant before <= seen'
        invariant forall k :: 0 <= k < m ==> children[k] in seen'
      {
        var child := children[m];
        ChildPidsAreChildren(entries, parent, child);
        if child !in seen' {
          GatherChild(entries, root, frontier, seen, level, seen', parent, child);
          seen' := seen' + {child};
          level := level + [child];
        }
      }
      NextParentsChildren(entries, frontier, n, before, seen');
    }
    assert frontier[..|frontier|] == frontier;
  }

  /** Where the breadth-first search stands: everything seen is reached, and only the children of the frontier may be
      unseen. */
  ghost predicate Explored(entries: seq<ProcessEntry>, root: int, seen: set<int>, frontier: seq<int>, found: seq<int>) {
    && root in seen && root !in found && Distinct(found)
    && (forall p :: p in seen <==> p == root || p in found)
    && (forall p :: p in seen ==> Reaches(entries, root, p))
    && (forall p :: p in frontier ==> p in seen)
    && (forall p, c :: p in seen && p !in frontier && IsChild(entries, p, c) ==> c in seen)
    && BeforeAParent(entries, root, found)
  }

  lemma ExploredOn(
    entries: seq<ProcessEntry>, root: int, seen: set<int>, frontier: seq<int>, found: seq<int>, level: seq<int>,
        seen': set<int>
  )
    requires Explored(entries, root, seen, frontier, found)
    requires (forall p :: p in level <==> p in seen' && p !in seen) && seen <= seen' && Distinct(level)
    requires forall p :: p in seen' ==> Reaches(entries, root, p)
    requires forall p, c :: p in frontier && IsChild(entries, p, c) ==> c in seen'
    requires forall c :: c in level ==> HasParentIn(entries, frontier, c)
    ensures Explored(entries, root, seen', level, level + found)
  {
    LevelBeforeParents(entries, root, level, found, frontier);
    forall p | p in level ensures p !in found {
      assert p !in seen;
    }
    DistinctTogether(level, found);
  }

  function Universe(entries: seq<ProcessEntry>, root: int): set<int> {
    (set e | e in entries :: e.pid) + {root}
  }

  /** Seen processes are in the table, so the search comes to an end. */
  lemma SearchShrinks(entries: seq<ProcessEntry>, root: int, seen: set<int>, level: seq<int>, seen': set<int>,
                      frontier: seq<int>)
    requires seen <= Universe(entries, root) && seen <= seen' && forall p :: p in level <==> p in seen' && p !in seen
    requires forall c :: c in level ==> HasParentIn(entries, frontier, c)
    ensures seen' <= Universe(entries, root)
    ensures level != [] ==> |Universe(entries, root) - seen'| < |Universe(entries, root) - seen|
    ensures level == [] ==> seen' == seen
  {
    var universe := Universe(entries, root);
    forall p | p in seen' ensures p in universe {
      if p !in seen {
        assert p in level;
        var parent :| parent in frontier && IsChild(entries, parent, p);
        var e :| 0 <= e < |entries| && entries[e].pid == p;
        assert entries[e] in entries;
      }
    }
    if level != [] {
      assert level[0] in level;
      SubsetIsSmaller(universe - seen', universe - seen, level[0]);
    }
  }

  // ----- how deep a process is

  ghost predicate WithinSteps(entries: seq<ProcessEntry>, root: int, p: int, n: nat)
    decreases n
  {
    p == root || (n > 0 && exists parent :: IsChild(entries, parent, p) && WithinSteps(entries, root, parent, n - 1))
  }

  lemma {:induction false} MoreSteps(entries: seq<ProcessEntry>, root: int, p: int, n: nat, m: nat)
    requires WithinSteps(entries, root, p, n) && n <= m
    ensures WithinSteps(entries, root, p, m)
    decreases n
  {
    hide IsChild;
    if p != root {
      var parent :| IsChild(entries, parent, p) && WithinSteps(entries, root, parent, n - 1);
      MoreSteps(entries, root, parent, n - 1, m - 1);
    }
  }

  /** No process is nearer to the root than one listed after it. */
  ghost predicate DeepestFirst(entries: seq<ProcessEntry>, root: int, pids: seq<int>) {
    forall i, j, n: nat :: 0 <= i < j < |pids| && WithinSteps(entries, root, pids[i], n) ==>
                             WithinSteps(entries, root, pids[j], n)
  }

  ghost predicate SeenWithin(entries: seq<ProcessEntry>, root: int, seen: set<int>, n: nat) {
    forall p :: p in seen <==> WithinSteps(entries, root, p, n)
  }

  lemma NextSeenWithin(entries: seq<ProcessEntry>, root: int, seen: set<int>, n: nat, frontier: seq<int>,
                       level: seq<int>, seen': set<int>)
    requires SeenWithin(entries, root, seen, n) && seen <= seen' && root in seen
    requires forall p :: p in level <==> p in seen' && p !in seen
    requires forall p, c :: p in seen && p !in frontier && IsChild(entries, p, c) ==> c in seen
    requires forall p :: p in frontier ==> p in seen
    requires forall p, c :: p in frontier && IsChild(entries, p, c) ==> c in seen'
    requires forall c :: c in level ==> HasParentIn(entries, frontier, c)
    ensures SeenWithin(entries, root, seen', n + 1)
  {
    hide IsChild;
    forall p ensures p in seen' <==> WithinSteps(entries, root, p, n + 1) {
      if p in seen {
        MoreSteps(entries, root, p, n, n + 1);
      } else if p in seen' {
        assert p in level;
        var parent :| parent in frontier && IsChild(entries, parent, p);
        assert WithinSteps(entries, root, parent, n);
      }
      if p != root && WithinSteps(entries, root, p, n + 1) {
        var parent :| IsChild(entries, parent, p) && WithinSteps(entries, root, parent, n);
        assert parent in seen;
      }
    }
  }

  lemma NextDeepestFirst(entries: seq<ProcessEntry>, root: int, seen: set<int>, n: nat, level: seq<int>,
                         found: seq<int>, seen': set<int>)
    requires SeenWithin(entries, root, seen, n) && SeenWithin(entries, root, seen', n + 1)
    requires (forall p :: p in level ==> p in seen' && p !in seen) && forall p :: p in found ==> p in seen
    requires DeepestFirst(entries, root, found)
    ensures DeepestFirst(entries, root, level + found)
  {
    hide WithinSteps;
    var pids := level + found;
    forall i, j, m: nat | 0 <= i < j < |pids| && WithinSteps(entries, root, pids[i], m)
      ensures WithinSteps(entries, root, pids[j], m)
    {
      if i < |level| {
        assert pids[i] in level;
        if m <= n {
          MoreSteps(entries, root, pids[i], m, n);
        }
        if j < |level| {
          assert pids[j] in level;
          MoreSteps(entries, root, pids[j], n + 1, m);
        } else {
          assert found[j - |level|] in found;
          MoreSteps(entries, root, pids[j], n, m);
        }
      } else {
        assert pids[i] == found[i - |level|] && pids[j] == found[j - |level|];
      }
    }
  }

  lemma StartsWithin(entries: seq<ProcessEntry>, root: int)
    ensures SeenWithin(entries, root, {root}, 0) && DeepestFirst(entries, root, [])
  {
  }

  /** The processes below a root in a process table, deepest first, found breadth first. */
  method ListDescendantsDeepestFirst(entries: seq<ProcessEntry>, rootPid: int) returns (pids: seq<int>)
    ensures forall p :: p in pids <==> p != rootPid && Reaches(entries, rootPid, p)
    ensures Distinct(pids) && BeforeAParent(entries, rootPid, pids) && DeepestFirst(entries, rootPid, pids)
  {
    hide BeforeAParent, HasParentIn, Universe, DeepestFirst, SeenWithin;
    var childrenOf := GroupChildren(entries);
    var levels: seq<seq<int>> := [];
    var seen, frontier := {rootPid}, [rootPid];
    StartsExplored(entries, rootPid);
    StartsWithin(entries, rootPid);
    while |frontier| > 0
      invariant Explored(entries, rootPid, seen, frontier, Concatenated(levels))
      invariant seen <= Universe(entries, rootPid) && SeenWithin(entries, rootPid, seen, |levels|)
      invariant DeepestFirst(entries, rootPid, Concatenated(levels))
      decreases |Universe(entries, rootPid) - seen|, |frontier|
    {
      var level, seen' := NextLevel(entries, rootPid, childrenOf, frontier, seen);
      ExploredOn(entries, rootPid, seen, frontier, Concatenated(levels), level, seen');
      SearchShrinks(entries, rootPid, seen, level, seen', frontier);
      NextSeenWithin(entries, rootPid, seen, |levels|, frontier, level, seen');
      NextDeepestFirst(entries, rootPid, seen, |levels|, level, Concatenated(levels), seen');
      ghost var below := levels;
      levels := [level] + levels;
      assert levels[1..] == below;
      seen, frontier := seen', level;
    }
    pids := Concatenated(levels);
    forall p | Reaches(entries, rootPid, p) ensures p in seen {
      ClosedHoldsReached(entries, rootPid, seen, p);
    }
  }

  lemma StartsExplored(entries: seq<ProcessEntry>, root: int)
    ensures Explored(entries, root, {root}, [root], []) && {root} <= Universe(entries, root)
  {
    ReachesItself(entries, root);
  }

  lemma SubsetIsSmaller<T>(a: set<T>, b: set<T>, x: T)
    requires a <= b && x in b && x !in a
    ensures |a| < |b|
  {
    assert a <= b - {x};
    SubsetIsNoLarger(a, b - {x});
  }

  lemma {:induction false} SubsetIsNoLarger<T>(a: set<T>, b: set<T>)
    requires a <= b
    ensures |a| <= |b|
    decreases a
  {
    if a != {} {
      var x :| x in a;
      SubsetIsNoLarger(a - {x}, b - {x});
    }
  }

  lemma LevelBeforeParents(entries: seq<ProcessEntry>, root: int, level: seq<int>, below: seq<int>, frontier: seq<int>)
    requires BeforeAParent(entries, root, below)
    requires forall p :: p in frontier ==> p == root || p in below
    requires forall c :: c in level ==> HasParentIn(entries, frontier, c)
    ensures BeforeAParent(entries, root, level + below)
  {
    var all := level + below;
    forall i | 0 <= i < |all| ensures ParentAfter(entries, root, all, i) {
      if i < |level| {
        assert level[i] in level && HasParentIn(entries, frontier, level[i]);
        var parent :| parent in frontier && IsChild(entries, parent, level[i]);
        if parent != root {
          var j :| 0 <= j < |below| && below[j] == parent;
          assert all[i + 1..][|level| + j - i - 1] == parent;
        }
        assert IsChild(entries, parent, all[i]) && (parent == root || parent in all[i + 1..]);
      } else {
        var k := i - |level|;
        assert ParentAfter(entries, root, below, k);
        assert all[i] == below[k] && all[i + 1..] == below[k + 1..];
        var parent :| IsChild(entries, parent, below[k]) && (parent == root || parent in below[k + 1..]);
        assert IsChild(entries, parent, all[i]) && (parent == root || parent in all[i + 1..]);
      }
    }
  }

  /** When pids are unique, every process comes before the one it is listed under, cycles or not. */
  lemma BeforeItsParent(entries: seq<ProcessEntry>, root: int, pids: seq<int>, i: nat, e: ProcessEntry)
    requires DistinctPids(entries) && BeforeAParent(entries, root, pids)
    requires i < |pids| && e in entries && e.pid == pids[i]
    ensures e.ppid == root || e.ppid in pids[i + 1..]
  {
    assert ParentAfter(entries, root, pids, i);
    var parent :| IsChild(entries, parent, pids[i]) && (parent == root || parent in pids[i + 1..]);
    var k :| 0 <= k < |entries| && entries[k].pid == pids[i] && entries[k].ppid == parent;
    var m :| 0 <= m < |entries| && entries[m] == e;
  }
}
