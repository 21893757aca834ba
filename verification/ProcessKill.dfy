/** Freezing a process tree until a listing shows it stopped, and then killing it, while every other process, and the
    tree itself until its signals land, may fork and exit between any two system calls.
 */
module ProcessKill {
  import opened Options
  import opened Sequences
  import opened ProcessTree

  // ----- the operating system

  /** A process of the table, by its pid. */
  datatype Process = Process(ppid: int, state: ProcessState)

  type Table = map<int, Process>

  /** The process that adopts orphans. */
  const INIT := 1

  /** What the system does on its own: a running process forks, or stops once a SIGSTOP lands; any process ends and
      leaves its children to init or to an ancestor, given with the chain down from it; a dead process is reaped. */
  datatype OsEvent =
    | Fork(parent: int, child: int)
    | StopLands(pid: int)
    | Exit(pid: int, heir: int, ancestry: seq<int>)
    | Reap(pid: int)

  predicate IsTableChild(table: Table, parent: int, child: int) {
    child in table && table[child].ppid == parent
  }

  predicate IsTableChain(table: Table, chain: seq<int>) {
    chain != [] && forall k :: 0 <= k < |chain| - 1 ==> IsTableChild(table, chain[k], chain[k + 1])
  }

  /** The process is the root or descends from it. */
  ghost predicate Descends(table: Table, root: int, pid: int) {
    exists chain :: IsTableChain(table, chain) && chain[0] == root && chain[|chain| - 1] == pid
  }

  predicate IsAncestry(table: Table, chain: seq<int>, ancestor: int, pid: int) {
    |chain| > 1 && IsTableChain(table, chain) && chain[0] == ancestor && chain[|chain| - 1] == pid
  }

  function Reparented(table: Table, pid: int, heir: int): Table {
    map p | p in table ::
      if p == pid then Process(table[p].ppid, Dead)
      else if table[p].ppid == pid then Process(heir, table[p].state)
      else table[p]
  }

  /** A pid is not given out twice, nor is it init's. Anything the system cannot do leaves the table as it is. */
  function After(table: Table, used: set<int>, pendingStop: set<int>, event: OsEvent): Table {
    match event
    case Fork(parent, child) =>
      if parent in table && table[parent].state == Running &&
          child !in used then table[child := Process(parent, Running)] else table
    case StopLands(pid) =>
      if pid in table && pid in pendingStop && table[pid].state == Running
          then table[pid := table[pid].(state := Stopped)] else table
    case Exit(pid, heir, ancestry) =>
      if pid in table && (heir == INIT || IsAncestry(table, ancestry, heir, pid))
      then Reparented(table, pid, heir) else table
    case Reap(pid) =>
      if pid in table && table[pid].state == Dead then table - {pid} else table
  }

  /** Nothing of the tree is running. */
  ghost predicate Quiet(table: Table, root: int) {
    forall p :: p in table && Descends(table, root, p) ==> table[p].state != Running
  }

  ghost predicate Shrinks(table: Table, table': Table, root: int) {
    forall p :: Descends(table', root, p) ==> Descends(table, root, p)
  }

  lemma DescendsItself(table: Table, root: int)
    ensures Descends(table, root, root)
  {
    assert IsTableChain(table, [root]) && [root][0] == root;
  }

  lemma DescendsChild(table: Table, root: int, parent: int, child: int)
    requires Descends(table, root, parent) && IsTableChild(table, parent, child)
    ensures Descends(table, root, child)
  {
    var chain :| IsTableChain(table, chain) && chain[0] == root && chain[|chain| - 1] == parent;
    var longer := chain + [child];
    assert IsTableChain(table, longer) && longer[0] == root && longer[|longer| - 1] == child;
  }

  lemma DescendsOn(table: Table, a: int, b: int, c: int)
    requires Descends(table, a, b) && Descends(table, b, c)
    ensures Descends(table, a, c)
  {
    var chain :| IsTableChain(table, chain) && chain[0] == b && chain[|chain| - 1] == c;
    for k := 1 to |chain|
      invariant Descends(table, a, chain[k - 1])
    {
      DescendsChild(table, a, chain[k - 1], chain[k]);
    }
  }

  /** Every pid the table mentions has been given out. */
  ghost predicate Sane(table: Table, used: set<int>) {
    INIT in used && 0 in used && forall p :: p in table ==> p in used && table[p].ppid in used
  }

  predicate ForksRunning(table: Table, used: set<int>, event: OsEvent) {
    event.Fork? && event.parent in table && table[event.parent].state == Running && event.child !in used
  }

  ghost predicate BelowAfter(table: Table, used: set<int>, event: OsEvent, root: int, pid: int) {
    Descends(table, root, pid) ||
    (ForksRunning(table, used, event) && pid == event.child && Descends(table, root, event.parent))
  }

  lemma ChainStep(table: Table, used: set<int>, pendingStop: set<int>, event: OsEvent, root: int, parent: int,
                  child: int)
    requires Sane(table, used) && !Descends(table, root, INIT)
    requires BelowAfter(table, used, event, root, parent)
    requires IsTableChild(After(table, used, pendingStop, event), parent, child)
    ensures BelowAfter(table, used, event, root, child)
  {
    if child in table && table[child].ppid == parent {
      DescendsChild(table, root, parent, child);
    } else if event.Exit? {
      assert table[child].ppid == event.pid && parent == event.heir;
      assert Descends(table, event.heir, event.pid);
      DescendsOn(table, root, event.heir, event.pid);
      DescendsChild(table, root, event.pid, child);
    }
  }

  lemma DescendantIsListed(table: Table, root: int, pid: int)
    requires Descends(table, root, pid)
    ensures pid == root || pid in table
  {
    var chain :| IsTableChain(table, chain) && chain[0] == root && chain[|chain| - 1] == pid;
    assert |chain| > 1 ==> IsTableChild(table, chain[|chain| - 2], chain[|chain| - 2 + 1]);
  }

  /** Whoever descends from the root after an event did so before, or was just forked by one who did. */
  lemma DescendantsAfter(table: Table, used: set<int>, pendingStop: set<int>, event: OsEvent, root: int, pid: int)
    requires Sane(table, used) && root in used && !Descends(table, root, INIT)
    requires Descends(After(table, used, pendingStop, event), root, pid)
    ensures BelowAfter(table, used, event, root, pid)
  {
    var table' := After(table, used, pendingStop, event);
    var chain :| IsTableChain(table', chain) && chain[0] == root && chain[|chain| - 1] == pid;
    DescendsItself(table, root);
    for k := 1 to |chain|
      invariant BelowAfter(table, used, event, root, chain[k - 1])
    {
      assert IsTableChild(table', chain[k - 1], chain[k]);
      ChainStep(table, used, pendingStop, event, root, chain[k - 1], chain[k]);
    }
  }

  function UsedAfter(used: set<int>, event: OsEvent): set<int> {
    if event.Fork? then used + {event.child} else used
  }

  lemma SaneAfter(table: Table, used: set<int>, pendingStop: set<int>, event: OsEvent)
    requires Sane(table, used)
    ensures Sane(After(table, used, pendingStop, event), UsedAfter(used, event))
  {
    if event.Exit? && IsAncestry(table, event.ancestry, event.heir, event.pid) {
      assert IsTableChild(table, event.ancestry[0], event.ancestry[1]);
    }
  }

  /** The tree's root, while init stays outside the tree. */
  ghost predicate IsRoot(table: Table, used: set<int>, root: int) {
    Sane(table, used) && root in used && !Descends(table, root, INIT)
  }

  /** Once nothing of the tree runs, the tree can only shrink, and nothing of it runs again. */
  ghost predicate Settles(table: Table, table': Table, root: int) {
    Quiet(table, root) ==> Quiet(table', root) && Shrinks(table, table', root)
  }

  lemma SettlesAfter(table: Table, used: set<int>, pendingStop: set<int>, event: OsEvent, root: int)
    requires IsRoot(table, used, root)
    ensures IsRoot(After(table, used, pendingStop, event), UsedAfter(used, event), root)
    ensures Settles(table, After(table, used, pendingStop, event), root)
  {
    var table' := After(table, used, pendingStop, event);
    SaneAfter(table, used, pendingStop, event);
    forall p | Descends(table', root, p)
      ensures BelowAfter(table, used, event, root, p) && p != INIT
      ensures Quiet(table, root) ==> Descends(table, root, p) && (p in table' ==> table'[p].state != Running)
    {
      DescendantsAfter(table, used, pendingStop, event, root, p);
      if Descends(table, root, p) {
        DescendantIsListed(table, root, p);
        if Quiet(table, root) && p in table' {
          StateAfter(table, used, pendingStop, event, p);
        }
      } else {
        DescendantIsListed(table, root, event.parent);
      }
    }
  }

  /** A process that was not running does not run again. */
  lemma StateAfter(table: Table, used: set<int>, pendingStop: set<int>, event: OsEvent, p: int)
    requires Sane(table, used) && p in used && p in After(table, used, pendingStop, event)
    ensures p in table
    ensures table[p].state != Running ==> After(table, used, pendingStop, event)[p].state != Running
  {
  }

  lemma SettlesOn(a: Table, b: Table, c: Table, root: int)
    requires Settles(a, b, root) && Settles(b, c, root)
    ensures Settles(a, c, root)
  {
  }

  /** The rows of a listing are the processes of the table, each once. */
  ghost predicate Lists(entries: seq<ProcessEntry>, table: Table) {
    && DistinctPids(entries)
    && (forall i :: 0 <= i < |entries| ==>
          entries[i].pid in table && table[entries[i].pid] == Process(entries[i].ppid, entries[i].state))
    && (forall p :: p in table ==> ProcessEntry(p, table[p].ppid, table[p].state) in entries)
  }

  lemma ListedChild(entries: seq<ProcessEntry>, table: Table, parent: int, child: int)
    requires Lists(entries, table)
    ensures IsChild(entries, parent, child) <==> IsTableChild(table, parent, child)
  {
    if IsTableChild(table, parent, child) {
      var i :| 0 <= i < |entries| && entries[i] == ProcessEntry(child, table[child].ppid, table[child].state);
      assert entries[i].pid == child && entries[i].ppid == parent;
    }
  }

  lemma ListedDescends(entries: seq<ProcessEntry>, table: Table, root: int, pid: int)
    requires Lists(entries, table)
    ensures Reaches(entries, root, pid) <==> Descends(table, root, pid)
  {
    forall p, c ensures IsChild(entries, p, c) <==> IsTableChild(table, p, c) {
      ListedChild(entries, table, p, c);
    }
    if Reaches(entries, root, pid) {
      var chain :| IsChain(entries, chain) && chain[0] == root && chain[|chain| - 1] == pid;
      assert IsTableChain(table, chain);
    }
    if Descends(table, root, pid) {
      var chain :| IsTableChain(table, chain) && chain[0] == root && chain[|chain| - 1] == pid;
      assert IsChain(entries, chain);
    }
  }

  // ----- the system calls

  /** The system as the program sees it. What happens on its own before each call is scheduled in advance, and so is
      whether each listing fails: what is proved holds for every schedule. */
  class Os {
    var table: Table
    var used: set<int>
    var pendingStop: set<int>
    var schedule: seq<seq<OsEvent>>
    var listingFails: seq<bool>
    var stopSent: seq<int>
    var killSent: seq<int>
    ghost var listings: seq<Option<seq<ProcessEntry>>> // what each listing gave

    constructor (table: Table, used: set<int>, schedule: seq<seq<OsEvent>>, listingFails: seq<bool>)
      ensures this.table == table && this.used == used && this.schedule == schedule && this.listingFails == listingFails
      ensures stopSent == [] && killSent == [] && listings == []
    {
      this.table, this.used, this.pendingStop, this.schedule := table, used, {}, schedule;
      this.listingFails, this.stopSent, this.killSent, this.listings := listingFails, [], [], [];
    }

    /** The scheduled events up to the next call. */
    method Elapse(ghost root: int)
      requires IsRoot(table, used, root)
      modifies this`table, this`used, this`pendingStop, this`schedule
      ensures IsRoot(table, used, root) && Settles(old(table), table, root)
    {
      hide IsRoot, Settles, ToStop;
      SettlesItself(table, root);
      if schedule != [] {
        var events := schedule[0];
        schedule := schedule[1..];
        for n := 0 to |events|
          invariant IsRoot(table, used, root) && Settles(old(table), table, root)
        {
          ghost var before := table;
          SettlesAfter(table, used, pendingStop, events[n], root);
          table, used, pendingStop :=
            After(table, used, pendingStop, events[n]), UsedAfter(used, events[n]),
            if events[n].StopLands? then pendingStop - {events[n].pid} else pendingStop;
          SettlesOn(old(table), before, table, root);
        }
      }
    }

    /** Signalling a process that is gone does nothing. */
    method Stop(pid: int, ghost root: int)
      requires IsRoot(table, used, root)
      modifies this
      ensures IsRoot(table, used, root) && Settles(old(table), table, root)
      ensures stopSent == old(stopSent) + [pid] && killSent == old(killSent) && listings == old(listings)
    {
      Elapse(root);
      pendingStop := if pid in table then pendingStop + {pid} else pendingStop;
      stopSent := stopSent + [pid];
    }

    method Kill(pid: int, ghost root: int)
      requires IsRoot(table, used, root)
      modifies this
      ensures IsRoot(table, used, root) && Settles(old(table), table, root)
      ensures killSent == old(killSent) + [pid] && stopSent == old(stopSent) && listings == old(listings)
    {
      Elapse(root);
      killSent := killSent + [pid];
    }

    method ListProcesses(ghost root: int) returns (entries: Option<seq<ProcessEntry>>)
      requires IsRoot(table, used, root)
      modifies this
      ensures IsRoot(table, used, root) && Settles(old(table), table, root)
      ensures entries.Some? ==> Lists(entries.value, table)
      ensures stopSent == old(stopSent) && killSent == old(killSent) && listings == old(listings) + [entries]
    {
      Elapse(root);
      var fails := listingFails != [] && listingFails[0];
      listingFails := if listingFails == [] then [] else listingFails[1..];
      if fails {
        listings := listings + [None];
        return None;
      }
      var rows := ListTable(table);
      listings := listings + [Some(rows)];
      return Some(rows);
    }
  }

  method ListTable(table: Table) returns (rows: seq<ProcessEntry>)
    ensures Lists(rows, table)
  {
    rows := [];
    var left := table.Keys;
    while left != {}
      invariant left <= table.Keys
      invariant DistinctPids(rows)
      invariant forall i :: 0 <= i < |rows| ==>
                  rows[i].pid in table && rows[i].pid !in left &&
                      table[rows[i].pid] == Process(rows[i].ppid, rows[i].state)
      invariant forall p :: p in table && p !in left ==> ProcessEntry(p, table[p].ppid, table[p].state) in rows
      decreases |left|
    {
      ghost var some := SomeMember(left);
      var p :| p in left;
      rows := rows + [ProcessEntry(p, table[p].ppid, table[p].state)];
      left := left - {p};
    }
  }

  lemma SomeMember<T>(s: set<T>) returns (x: T)
    requires s != {}
    ensures x in s
  {
    x :| x in s;
  }

  lemma SettlesItself(table: Table, root: int)
    ensures Settles(table, table, root)
  {
  }

  // ----- freezing and killing

  const MAX_LISTINGS := 10

  /** No frozen process was listed as running. */
  predicate AllStill(entries: seq<ProcessEntry>, frozen: seq<int>) {
    forall e :: e in entries && e.pid in frozen ==> e.state != Running
  }

  lemma StillIsQuiet(entries: seq<ProcessEntry>, table: Table, root: int, tree: seq<int>, frozen: seq<int>)
    requires Lists(entries, table) && AllStill(entries, frozen)
    requires forall p :: p in tree <==> p != root && Reaches(entries, root, p)
    requires root in frozen && forall p :: p in tree ==> p in frozen
    ensures Quiet(table, root) && forall p :: Descends(table, root, p) ==> p == root || p in tree
  {
    forall p | Descends(table, root, p) ensures (p == root || p in tree) && (p in table ==> table[p].state != Running) {
      ListedDescends(entries, table, root, p);
      if p in table {
        assert ProcessEntry(p, table[p].ppid, table[p].state) in entries;
      }
    }
  }

  /** The listed processes that have had no SIGSTOP, the last listed first. */
  function ToStop(tree: seq<int>, frozen: seq<int>): seq<int> {
    if tree == [] then []
    else
      var last := tree[|tree| - 1];
      (if last in frozen then [] else [last]) + ToStop(tree[..|tree| - 1], frozen)
  }

  /** When a process is sent its SIGSTOP, a parent of it is the root or has had one. */
  lemma {:induction false} ParentsStopFirst(entries: seq<ProcessEntry>, root: int, tree: seq<int>, frozen: seq<int>,
                                            i: nat)
    requires BeforeAParent(entries, root, tree) && i < |ToStop(tree, frozen)|
    ensures exists parent :: IsChild(entries, parent, ToStop(tree, frozen)[i]) &&
              (parent == root || parent in frozen || parent in ToStop(tree, frozen)[..i])
  {
    hide IsChild, BeforeAParent;
    var k := StopOrder(tree, frozen, i);
    ListedBeforeAParent(entries, root, tree, k);
  }

  lemma ListedBeforeAParent(entries: seq<ProcessEntry>, root: int, tree: seq<int>, k: nat)
    requires BeforeAParent(entries, root, tree) && k < |tree|
    ensures exists parent :: IsChild(entries, parent, tree[k]) && (parent == root || parent in tree[k + 1..])
  {
    assert ParentAfter(entries, root, tree, k);
  }

  /** What is listed after a process that is stopped was stopped before it. */
  lemma {:induction false} StopOrder(tree: seq<int>, frozen: seq<int>, i: nat) returns (k: nat)
    requires i < |ToStop(tree, frozen)|
    ensures k < |tree| && tree[k] == ToStop(tree, frozen)[i]
    ensures forall p :: p in tree[k + 1..] ==> p in frozen || p in ToStop(tree, frozen)[..i]
    decreases |tree|
  {
    var front, last := tree[..|tree| - 1], tree[|tree| - 1];
    var first := if last in frozen then [] else [last];
    if i < |first| {
      k := |tree| - 1;
    } else {
      k := StopOrder(front, frozen, i - |first|);
      assert tree[k + 1..] == front[k + 1..] + [last];
      assert ToStop(tree, frozen)[..i] == first + ToStop(front, frozen)[..i - |first|];
    }
  }

  lemma NothingToStop(frozen: seq<int>)
    ensures ToStop([], frozen) == []
  {
  }

  lemma NextToStop(tree: seq<int>, n: nat, frozen: seq<int>, frozen': seq<int>)
    requires 0 < n <= |tree| && Distinct(tree) && forall p :: p in frozen' <==> p in frozen || p in tree[n..]
    ensures tree[n - 1] in frozen' <==> tree[n - 1] in frozen
    ensures frozen' + ToStop(tree[..n], frozen) ==
            (if tree[n - 1] in frozen then frozen' else frozen' + [tree[n - 1]]) + ToStop(tree[..n - 1], frozen)
  {
    var pid, rest := tree[n - 1], ToStop(tree[..n - 1], frozen);
    assert tree[..n][..n - 1] == tree[..n - 1] && tree[..n][n - 1] == pid;
    assert ToStop(tree[..n], frozen) == (if pid in frozen then [] else [pid]) + rest;
    assert frozen' + ([pid] + rest) == frozen' + [pid] + rest && [] + rest == rest;
  }

  /** Sends SIGSTOP, parents first, to every listed process that has not had one. */
  method StopListed(os: Os, ghost root: int, tree: seq<int>, frozen: seq<int>) returns (frozen': seq<int>)
    requires IsRoot(os.table, os.used, root) && Distinct(tree) && Distinct(frozen)
    modifies os
    ensures IsRoot(os.table, os.used, root) && Settles(old(os.table), os.table, root)
    ensures frozen <= frozen' && Distinct(frozen') && forall p :: p in frozen' <==> p in frozen || p in tree
    ensures frozen' == frozen + ToStop(tree, frozen)
    ensures os.stopSent == old(os.stopSent) + frozen'[|frozen|..] && os.killSent == old(os.killSent)
    ensures os.listings == old(os.listings)
  {
    hide IsRoot, Settles, ToStop;
    frozen' := frozen;
    assert tree[|tree|..] == [] && tree[..|tree|] == tree;
    NothingToStop(frozen);
    SettlesItself(os.table, root);
    var n := |tree|;
    while n > 0
      invariant 0 <= n <= |tree|
      invariant IsRoot(os.table, os.used, root) && Settles(old(os.table), os.table, root)
      invariant frozen <= frozen' && Distinct(frozen') && forall p :: p in frozen' <==> p in frozen || p in tree[n..]
      invariant frozen' + ToStop(tree[..n], frozen) == frozen + ToStop(tree, frozen)
      invariant os.stopSent == old(os.stopSent) + frozen'[|frozen|..] && os.killSent == old(os.killSent)
      invariant os.listings == old(os.listings)
    {
      NextToStop(tree, n, frozen, frozen');
      n := n - 1;
      var pid := tree[n];
      assert tree[n..] == [pid] + tree[n + 1..];
      if pid !in frozen' {
        ghost var before := os.table;
        os.Stop(pid, root);
        SettlesOn(old(os.table), before, os.table, root);
        frozen' := frozen' + [pid];
      }
    }
    assert tree[..0] == [] && frozen' + [] == frozen';
  }

  /** Every process that a listing shows below the root. */
  ghost predicate AllShown(listings: seq<Option<seq<ProcessEntry>>>, root: int, pids: seq<int>) {
    forall k, p :: 0 <= k < |listings| && listings[k].Some? && Reaches(listings[k].value, root, p) ==> p in pids
  }

  lemma NothingShown(root: int, pids: seq<int>)
    ensures AllShown([], root, pids)
  {
  }

  lemma FailureShowsNothing(listings: seq<Option<seq<ProcessEntry>>>, root: int, pids: seq<int>)
    requires AllShown(listings, root, pids)
    ensures AllShown(listings + [None], root, pids)
  {
  }

  lemma MoreShown(listings: seq<Option<seq<ProcessEntry>>>, entries: seq<ProcessEntry>, root: int, tree: seq<int>,
                  pids: seq<int>, more: seq<int>)
    requires AllShown(listings, root, pids) && root in pids
    requires forall p :: p in tree <==> p != root && Reaches(entries, root, p)
    requires forall p :: p in more <==> p in pids || p in tree
    ensures AllShown(listings + [Some(entries)], root, more)
  {
  }

  lemma ShownInOrder(listings: seq<Option<seq<ProcessEntry>>>, root: int, pids: seq<int>, order: seq<int>)
    requires AllShown(listings, root, pids) && forall p :: p in order <==> p in pids
    ensures AllShown(listings, root, order)
  {
  }

  /** A listing shows a process running that was sent a SIGSTOP. */
  ghost predicate ShowsRunning(listing: Option<seq<ProcessEntry>>, stopped: seq<int>) {
    listing.Some? && exists e :: e in listing.value && e.pid in stopped && e.state == Running
  }

  /** The processes below the root in a listing, deepest first. */
  ghost predicate ListsBelow(entries: seq<ProcessEntry>, root: int, pids: seq<int>) {
    && Distinct(pids) && BeforeAParent(entries, root, pids) && DeepestFirst(entries, root, pids)
    && forall p :: p in pids <==> p != root && Reaches(entries, root, p)
  }

  /** The processes of the last listing that did not fail come first. */
  ghost predicate StartsWithTree(listings: seq<Option<seq<ProcessEntry>>>, root: int, order: seq<int>)
    requires listings != []
  {
    var n := |listings| - if listings[|listings| - 1].None? then 2 else 1;
    n >= 0 && listings[n].Some? ==>
      exists m :: 0 <= m <= |order| && ListsBelow(listings[n].value, root, order[..m])
  }

  lemma ListsThemBelow(entries: seq<ProcessEntry>, root: int, pids: seq<int>)
    requires Distinct(pids) && BeforeAParent(entries, root, pids) && DeepestFirst(entries, root, pids)
    requires forall p :: p in pids <==> p != root && Reaches(entries, root, p)
    ensures ListsBelow(entries, root, pids)
  {
  }

  lemma TreeComesFirst(listings: seq<Option<seq<ProcessEntry>>>, n: int, root: int, tree: seq<int>, order: seq<int>)
    requires listings != [] && n == |listings| - if listings[|listings| - 1].None? then 2 else 1
    requires tree <= order && (n >= 0 && listings[n].Some? ==> ListsBelow(listings[n].value, root, tree))
    ensures StartsWithTree(listings, root, order)
  {
    hide ListsBelow;
    assert order[..|tree|] == tree;
  }

  lemma StillShowsNone(entries: seq<ProcessEntry>, frozen: seq<int>)
    ensures AllStill(entries, frozen) <==> !ShowsRunning(Some(entries), frozen)
  {
  }

  lemma MoreStopped(listings: seq<Option<seq<ProcessEntry>>>, fewer: seq<int>, more: seq<int>)
    requires forall k :: 0 <= k < |listings| ==> ShowsRunning(listings[k], fewer)
    requires forall p :: p in fewer ==> p in more
    ensures forall k :: 0 <= k < |listings| ==> ShowsRunning(listings[k], more)
  {
    forall k | 0 <= k < |listings| ensures ShowsRunning(listings[k], more) {
      assert ShowsRunning(listings[k], fewer);
    }
  }

  /** Freezes the tree until a listing shows it stopped, and returns the processes to kill: all that any listing showed
      below the root. It goes on for as long as a listing shows a frozen process running, and gives up only when one
      fails or after ten. When the loop ends by its own check, whatever descends from the root at that moment is among
      them. */
  method Freeze(os: Os, root: int) returns (order: seq<int>, settled: bool)
    requires IsRoot(os.table, os.used, root) && os.stopSent == [] && os.listings == []
    modifies os
    ensures IsRoot(os.table, os.used, root)
    ensures settled ==> Quiet(os.table, root) && forall p :: Descends(os.table, root, p) ==> p in order
    ensures IsOrderOf(order, os.stopSent, root) && AllShown(os.listings, root, order)
    ensures 0 < |os.listings| <= MAX_LISTINGS && StartsWithTree(os.listings, root, order)
    ensures forall k :: 0 <= k < |os.listings| - 1 ==> ShowsRunning(os.listings[k], os.stopSent)
    ensures var last := os.listings[|os.listings| - 1];
            && (settled <==> last.Some? && !ShowsRunning(last, os.stopSent))
            && (!settled ==> last.None? || |os.listings| == MAX_LISTINGS)
    ensures os.killSent == old(os.killSent)
  {
    hide IsRoot, Settles, ToStop, ShowsRunning, AllStill, StartsWithTree, BeforeAParent, DeepestFirst,
        ListsBelow, AllShown;
    os.Stop(root, root);
    var frozen, tree: seq<int> := [root], [];
    settled := false;
    var listing := 0;
    ghost var shown := []; // the last listing that did not fail
    NothingShown(root, frozen);
    while listing < MAX_LISTINGS
      invariant IsRoot(os.table, os.used, root)
      invariant Distinct(frozen) && root in frozen && Distinct(tree) && root !in tree
      invariant forall p :: p in tree ==> p in frozen
      invariant os.stopSent == frozen && os.killSent == old(os.killSent)
      invariant !settled && |os.listings| == listing <= MAX_LISTINGS && AllShown(os.listings, root, frozen)
      invariant forall k :: 0 <= k < |os.listings| ==> ShowsRunning(os.listings[k], frozen)
      invariant listing > 0 ==> os.listings[listing - 1] == Some(shown) && ListsBelow(shown, root, tree)
      decreases MAX_LISTINGS - listing
    {
      var entries := os.ListProcesses(root);
      if entries.None? {
        FailureShowsNothing(os.listings[..listing], root, frozen);
        assert os.listings == os.listings[..listing] + [None];
        break;
      }
      ghost var listed, before := os.table, frozen;
      tree := ListDescendantsDeepestFirst(entries.value, root);
      shown := entries.value;
      ListsThemBelow(shown, root, tree);
      ghost var earlier := os.listings[..listing];
      frozen := StopListed(os, root, tree, frozen);
      assert frozen == before + frozen[|before|..];
      MoreStopped(earlier, before, frozen);
      MoreShown(earlier, shown, root, tree, before, frozen);
      assert os.listings == earlier + [Some(shown)];
      StillShowsNone(entries.value, frozen);
      if AllStill(entries.value, frozen) {
        StillIsQuiet(entries.value, listed, root, tree, frozen);
        SettledTree(listed, os.table, root);
        settled := true;
        break;
      }
      listing := listing + 1;
    }
    order := KillOrder(tree, frozen, root);
    InOrder(order, frozen);
    ShownInOrder(os.listings, root, frozen, order);
    var last := |os.listings| - 1;
    TreeComesFirst(os.listings, if os.listings[last].None? then last - 1 else last, root, tree, order);
  }

  lemma InOrder(order: seq<int>, stopped: seq<int>)
    requires multiset(order) == multiset(stopped)
    ensures forall p :: p in order <==> p in stopped
  {
    forall p ensures p in order <==> p in stopped {
      assert p in multiset(order) <==> p in multiset(stopped);
    }
  }

  lemma SettledTree(table: Table, table': Table, root: int)
    requires Settles(table, table', root) && Quiet(table, root)
    ensures Quiet(table', root) && Shrinks(table, table', root)
  {
  }

  /** The processes that were sent a SIGSTOP, each once, with the root last. */
  predicate IsOrderOf(order: seq<int>, stopped: seq<int>, root: int) {
    && Distinct(order) && order != [] && order[|order| - 1] == root
    && multiset(order) == multiset(stopped)
  }

  function Others(frozen: seq<int>, tree: seq<int>, root: int): seq<int> {
    if frozen == [] then []
    else
      var last := frozen[|frozen| - 1];
      Others(frozen[..|frozen| - 1], tree, root) + if last != root && last !in tree then [last] else []
  }

  lemma {:induction false} OthersAreFrozen(frozen: seq<int>, tree: seq<int>, root: int)
    requires Distinct(frozen)
    ensures Distinct(Others(frozen, tree, root))
    ensures forall p :: p in Others(frozen, tree, root) <==> p in frozen && p != root && p !in tree
  {
    if frozen != [] {
      var front, last := frozen[..|frozen| - 1], frozen[|frozen| - 1];
      OthersAreFrozen(front, tree, root);
      assert frozen == front + [last];
      assert last !in front;
    }
  }

  /** The tree as last listed, then the processes frozen earlier that it no longer shows, then the root. */
  method KillOrder(tree: seq<int>, frozen: seq<int>, root: int) returns (order: seq<int>)
    requires Distinct(tree) && root !in tree && Distinct(frozen) && root in frozen
    requires forall p :: p in tree ==> p in frozen
    ensures IsOrderOf(order, frozen, root) && tree <= order
  {
    order := tree + Others(frozen, tree, root) + [root];
    OthersAreFrozen(frozen, tree, root);
    DistinctTogether(tree, Others(frozen, tree, root));
    DistinctTogether(tree + Others(frozen, tree, root), [root]);
    SameElements(order, frozen);
  }

  lemma {:induction false} SameElements(a: seq<int>, b: seq<int>)
    requires Distinct(a) && Distinct(b) && forall x :: x in a <==> x in b
    ensures multiset(a) == multiset(b)
  {
    forall x ensures multiset(a)[x] == multiset(b)[x] {
      OnceInDistinct(a, x);
      OnceInDistinct(b, x);
    }
  }

  lemma {:induction false} OnceInDistinct(a: seq<int>, x: int)
    requires Distinct(a)
    ensures multiset(a)[x] == if x in a then 1 else 0
  {
    if a != [] {
      var front, last := a[..|a| - 1], a[|a| - 1];
      OnceInDistinct(front, x);
      assert a == front + [last] && last !in front;
    }
  }

  /** Freezes the tree and kills it, deepest first. Every process that a listing showed below the root has been sent a
      SIGKILL when the call returns. If the freeze settled, so has every process that descends from the root when the
      killing starts, or at any time after. */
  method KillProcessTree(os: Os, root: int) returns (settled: bool)
    requires IsRoot(os.table, os.used, root) && os.stopSent == os.killSent == [] && os.listings == []
    modifies os
    ensures IsOrderOf(os.killSent, os.stopSent, root) && AllShown(os.listings, root, os.killSent)
    ensures os.listings != [] && StartsWithTree(os.listings, root, os.killSent)
    ensures settled ==> Quiet(os.table, root) && forall p :: Descends(os.table, root, p) ==> p in os.killSent
    ensures 0 < |os.listings| <= 10 && forall k :: 0 <= k < |os.listings| - 1 ==>
              ShowsRunning(os.listings[k], os.stopSent)
    ensures var last := os.listings[|os.listings| - 1];
            && (settled <==> last.Some? && !ShowsRunning(last, os.stopSent))
            && (!settled ==> last.None? || |os.listings| == 10)
  {
    hide IsRoot, ShowsRunning, StartsWithTree;
    var order;
    order, settled := Freeze(os, root);
    ghost var stopped, listings := os.stopSent, os.listings;
    for n := 0 to |order|
      invariant IsRoot(os.table, os.used, root)
      invariant os.killSent == order[..n] && os.stopSent == stopped && os.listings == listings
      invariant settled ==> Quiet(os.table, root) && forall p :: Descends(os.table, root, p) ==> p in order
    {
      os.Kill(order[n], root);
    }
    assert order[..|order|] == order;
  }
}
