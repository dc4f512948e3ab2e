/**
 The breadth-first file tree with one budget for all levels
 (readFileTreeLimited, expandFileTree and listFileTreeEntries in
 internal/app/workspace_snapshot.go). The entries are nodes of one sequence in
 the order they are made, and a pointer to an entry is its index.
 */
module FileTree {
  import opened Basics

  datatype Entry = Entry(name: string, isDir: bool, hasInfo: bool)

  /** Names from the listed directory down. */
  type Path = seq<string>

  /** What os.ReadDir says of each directory; nothing bounds how deep the directories go. */
  type FileSystem = Path -> Option<seq<Entry>>

  datatype Node = Node(path: Path, isDir: bool, children: seq<nat>, truncated: bool)

  const SKIPPED := [".git", ".cache", ".next", "build", "dist", "node_modules", "vendor"]

  predicate Among(name: string, names: seq<string>) {
    names != [] && (name == names[0] || Among(name, names[1..]))
  }

  predicate Skipped(e: Entry) { e.isDir && Among(e.name, SKIPPED) }

  // ---------- one directory ----------

  /** The entries a directory shows when nothing is cut. */
  function Shown(entries: seq<Entry>): seq<Entry> {
    if entries == [] then []
    else
      var last := entries[|entries| - 1];
      Shown(entries[..|entries| - 1]) + if IsShown(last) then [last] else []
  }

  predicate IsShown(e: Entry) { !Skipped(e) && e.hasInfo }

  /** What a tree should show: files and directories with information, but for seven directories. */
  predicate IsListed(e: Entry) {
    && e.hasInfo
    && (!e.isDir || e.name !in [".git", ".cache", ".next", "build", "dist", "node_modules", "vendor"])
  }

  lemma {:induction false} AmongMeans(name: string, names: seq<string>)
    ensures Among(name, names) <==> name in names
  {
    if names != [] {
      AmongMeans(name, names[1..]);
    }
  }

  /** The test on the way through a directory is that of the names. */
  lemma ShowsTheListed(e: Entry)
    ensures IsShown(e) <==> IsListed(e)
  {
    AmongMeans(e.name, SKIPPED);
  }

  lemma {:induction false} ShownMeans(entries: seq<Entry>, e: Entry)
    ensures e in Shown(entries) <==> e in entries && IsListed(e)
  {
    if entries != [] {
      ShownMeans(entries[..|entries| - 1], e);
      ShowsTheListed(entries[|entries| - 1]);
      assert entries == entries[..|entries| - 1] + [entries[|entries| - 1]];
    }
  }

  /** The directory has an entry of this name and kind that a tree should show. */
  predicate Offers(entries: seq<Entry>, name: string, isDir: bool) {
    exists e :: e in entries && IsListed(e) && e.name == name && e.isDir == isDir
  }

  lemma OffersShown(entries: seq<Entry>, name: string, isDir: bool)
    ensures Offers(entries, name, isDir) <==> exists e :: e in Shown(entries) && e.name == name && e.isDir == isDir
  {
    if Offers(entries, name, isDir) {
      var e :| e in entries && IsListed(e) && e.name == name && e.isDir == isDir;
      ShownMeans(entries, e);
    }
    if e :| e in Shown(entries) && e.name == name && e.isDir == isDir {
      ShownMeans(entries, e);
    }
  }

  /** Among the first `n`, an entry for which the budget is spent by the time it is looked at. */
  predicate OverflowsBy(entries: seq<Entry>, n: nat, budget: nat)
    requires n <= |entries|
  {
    exists i :: 0 <= i < n && !Skipped(entries[i]) && |Shown(entries[..i])| >= budget
  }

  predicate Overflows(entries: seq<Entry>, budget: nat) { OverflowsBy(entries, |entries|, budget) }

  function Cut(entries: seq<Entry>, budget: nat): seq<Entry> {
    Shown(entries)[..Min(budget, |Shown(entries)|)]
  }

  lemma {:induction false} ShownGrows(entries: seq<Entry>, i: nat)
    requires i <= |entries|
    ensures Shown(entries[..i]) <= Shown(entries)
    decreases |entries|
  {
    if i < |entries| {
      var before := entries[..|entries| - 1];
      assert before[..i] == entries[..i];
      ShownGrows(before, i);
    } else {
      assert entries[..i] == entries;
    }
  }

  lemma OneMore(entries: seq<Entry>, i: nat)
    requires i < |entries|
    ensures Shown(entries[..i + 1]) == Shown(entries[..i]) + if IsShown(entries[i]) then [entries[i]] else []
  {
    assert entries[..i + 1][..i] == entries[..i];
  }

  /** listFileTreeEntries: the first shown entries the budget allows, and whether it was spent before the end. */
  method ListEntries(entries: seq<Entry>, count: nat, maxEntries: nat)
    returns (kept: seq<Entry>, truncated: bool, total: nat)
    requires count <= maxEntries
    ensures kept == Cut(entries, maxEntries - count)
    ensures truncated <==> Overflows(entries, maxEntries - count)
    ensures total == count + |kept|
    ensures truncated ==> total == maxEntries
    ensures !truncated ==> kept == Shown(entries)
  {
    kept, truncated, total := [], false, count;
    for i := 0 to |entries|
      invariant kept == Shown(entries[..i])
      invariant total == count + |kept| <= maxEntries
      invariant !OverflowsBy(entries, i, maxEntries - count)
    {
      OneMore(entries, i);
      ShownGrows(entries, i);
      var entry := entries[i];
      if Skipped(entry) {
        continue;
      }
      if total >= maxEntries {
        return kept, true, total;
      }
      if !entry.hasInfo {
        continue;
      }
      total := total + 1;
      kept := kept + [entry];
    }
    assert entries[..|entries|] == entries;
  }

  // ---------- the walk ----------

  datatype Walk = Walk(nodes: seq<Node>, queue: seq<nat>)

  function NodesOf(parent: Path, kept: seq<Entry>): (r: seq<Node>)
    ensures |r| == |kept|
    ensures forall k :: 0 <= k < |r| ==> r[k] == Node(parent + [kept[k].name], kept[k].isDir, [], false)
  {
    seq(|kept|, k requires 0 <= k < |kept| => Node(parent + [kept[k].name], kept[k].isDir, [], false))
  }

  /** The directories among the nodes from `from` on. */
  function Dirs(nodes: seq<Node>, from: nat): seq<nat>
    requires from <= |nodes|
    decreases |nodes| - from
  {
    if from == |nodes| then []
    else (if nodes[from].isDir then [from] else []) + Dirs(nodes, from + 1)
  }

  function Indices(from: nat, n: nat): (r: seq<nat>)
    ensures |r| == n && forall k :: 0 <= k < n ==> r[k] == from + k
  {
    seq(n, k requires 0 <= k < n => from + k)
  }

  /** One turn of the loop of expandFileTree. */
  function Visit(fs: FileSystem, w: Walk, maxDepth: nat, maxEntries: nat): Walk
    requires w.queue != [] && w.queue[0] < |w.nodes| <= maxEntries
  {
    var cur := w.queue[0];
    var node := w.nodes[cur];
    var rest := w.queue[1..];
    if |node.path| > maxDepth then Walk(w.nodes, rest)
    else if |w.nodes| >= maxEntries then Walk(w.nodes[cur := node.(truncated := true)], rest)
    else if fs(node.path).None? then Walk(w.nodes, rest)
    else
      var entries := fs(node.path).value;
      var budget := maxEntries - |w.nodes|;
      var kept := Cut(entries, budget);
      var expanded := node.(children := Indices(|w.nodes|, |kept|), truncated := Overflows(entries, budget));
      var nodes := w.nodes[cur := expanded] + NodesOf(node.path, kept);
      Walk(nodes, rest + Dirs(nodes, |w.nodes|))
  }

  method EnqueueDirs(nodes: seq<Node>, from: nat) returns (queue: seq<nat>)
    requires from <= |nodes|
    ensures queue == Dirs(nodes, from)
  {
    queue := [];
    for i := from to |nodes|
      invariant Dirs(nodes, from) == queue + Dirs(nodes, i)
    {
      if nodes[i].isDir {
        queue := queue + [i];
      }
    }
  }

  // ---------- what the walk keeps ----------

  /** A path every component of which its directory shows; `isDir` says what the last one is. */
  predicate Present(fs: FileSystem, path: Path, isDir: bool)
    decreases |path|
  {
    && path != []
    && var parent := path[..|path| - 1];
       && (parent == [] || Present(fs, parent, true))
       && fs(parent).Some?
       && Offers(fs(parent).value, path[|path| - 1], isDir)
  }

  /** The children are the first `n` shown entries of the directory, in order. */
  predicate Lists(nodes: seq<Node>, i: nat, shown: seq<Entry>, n: nat)
    requires i < |nodes|
  {
    && |nodes[i].children| == n <= |shown|
    && forall k :: 0 <= k < n ==>
         && nodes[i].children[k] < |nodes|
         && nodes[nodes[i].children[k]].path == nodes[i].path + [shown[k].name]
         && nodes[nodes[i].children[k]].isDir == shown[k].isDir
  }

  /** A node that is never expanded: a file, or a directory below the depth limit or still queued. */
  predicate Untouched(n: Node) { n.children == [] && !n.truncated }

  /** What is true of a directory the loop has visited. */
  predicate Visited(fs: FileSystem, nodes: seq<Node>, i: nat, maxDepth: nat)
    requires i < |nodes|
  {
    var n := nodes[i];
    if |n.path| > maxDepth then Untouched(n)
    else if n.truncated then
      n.children == [] || (fs(n.path).Some? && |n.children| <= |Shown(fs(n.path).value)|
                           && Lists(nodes, i, Shown(fs(n.path).value), |n.children|))
    else if fs(n.path).None? then n.children == []
    else Lists(nodes, i, Shown(fs(n.path).value), |Shown(fs(n.path).value)|)
  }

  predicate NoneShared(a: seq<nat>, b: seq<nat>) { forall x :: x in a ==> x !in b }

  predicate HasParent(nodes: seq<Node>, j: nat)
    requires j < |nodes|
  {
    exists i :: 0 <= i < j && j in nodes[i].children
  }

  /** Every node past the first `roots` is the child of one earlier node, and no node has two parents. */
  predicate IsForest(nodes: seq<Node>, roots: nat) {
    && roots <= |nodes|
    && (forall i, k :: 0 <= i < |nodes| && 0 <= k < |nodes[i].children| ==> i < nodes[i].children[k] < |nodes|)
    && (forall j :: roots <= j < |nodes| ==> HasParent(nodes, j))
    && (forall i, k :: 0 <= i < |nodes| && 0 <= k < |nodes[i].children| ==> nodes[i].children[k] >= roots)
    && (forall i, j :: 0 <= i < j < |nodes| ==> NoneShared(nodes[i].children, nodes[j].children))
  }

  /** Nodes are made level by level, and the levels of what is still queued are at most one behind. */
  predicate Levelled(nodes: seq<Node>, head: nat) {
    && (forall i, j :: 0 <= i < j < |nodes| ==> |nodes[i].path| <= |nodes[j].path|)
    && (forall i, j :: head <= i < |nodes| && 0 <= j < |nodes| ==> |nodes[j].path| <= |nodes[i].path| + 1)
  }

  /** A truncated directory means the budget is spent, and on no level but its children's or above. */
  predicate Fair(nodes: seq<Node>, maxEntries: nat) {
    forall i :: 0 <= i < |nodes| && nodes[i].truncated ==>
      |nodes| == maxEntries && forall j :: 0 <= j < |nodes| ==> |nodes[j].path| <= |nodes[i].path| + 1
  }

  /** The nodes before `head` are settled, those from `head` on are as they were made. */
  predicate Settled(fs: FileSystem, nodes: seq<Node>, head: nat, maxDepth: nat) {
    forall i :: 0 <= i < |nodes| ==>
      if i < head && nodes[i].isDir then Visited(fs, nodes, i, maxDepth) else Untouched(nodes[i])
  }

  predicate Placed(fs: FileSystem, nodes: seq<Node>, maxDepth: nat) {
    forall i :: 0 <= i < |nodes| ==> Present(fs, nodes[i].path, nodes[i].isDir) && |nodes[i].path| <= maxDepth + 1
  }

  /** The shape of the tree so far. */
  predicate Shaped(nodes: seq<Node>, head: nat, roots: nat, maxEntries: nat) {
    IsForest(nodes, roots) && Levelled(nodes, head) && Fair(nodes, maxEntries)
  }

  /** What the nodes say about the file system. */
  predicate Truthful(fs: FileSystem, nodes: seq<Node>, head: nat, maxDepth: nat) {
    Settled(fs, nodes, head, maxDepth) && Placed(fs, nodes, maxDepth)
  }

  predicate Keeps(fs: FileSystem, w: Walk, head: nat, roots: nat, maxDepth: nat, maxEntries: nat) {
    && roots <= |w.nodes| <= maxEntries && head <= |w.nodes|
    && w.queue == Dirs(w.nodes, head)
    && Truthful(fs, w.nodes, head, maxDepth)
    && Shaped(w.nodes, head, roots, maxEntries)
  }

  lemma {:induction false} DirsAppend(nodes: seq<Node>, made: seq<Node>, from: nat)
    requires from <= |nodes|
    ensures Dirs(nodes + made, from) == Dirs(nodes, from) + Dirs(nodes + made, |nodes|)
    decreases |nodes| - from
  {
    if from < |nodes| {
      DirsAppend(nodes, made, from + 1);
    }
  }

  lemma {:induction false} DirsHead(nodes: seq<Node>, from: nat)
    requires from <= |nodes| && Dirs(nodes, from) != []
    ensures var cur := Dirs(nodes, from)[0];
            && from <= cur < |nodes| && nodes[cur].isDir
            && (forall k :: from <= k < cur ==> !nodes[k].isDir)
            && Dirs(nodes, cur + 1) == Dirs(nodes, from)[1..]
    decreases |nodes| - from
  {
    if !nodes[from].isDir {
      DirsHead(nodes, from + 1);
    }
  }

  lemma {:induction false} DirsSame(a: seq<Node>, b: seq<Node>, from: nat)
    requires |a| == |b| && from <= |a| && forall k :: from <= k < |a| ==> a[k].isDir == b[k].isDir
    ensures Dirs(a, from) == Dirs(b, from)
    decreases |a| - from
  {
    if from < |a| {
      DirsSame(a, b, from + 1);
    }
  }

  // ---------- one turn of the loop ----------

  /** Settling node `cur`: it may be cut, and it may get children at the end of the sequence. */
  predicate Grows(nodes: seq<Node>, cur: nat, settled: Node, made: seq<Node>, maxEntries: nat) {
    && cur < |nodes| && Untouched(nodes[cur])
    && settled.path == nodes[cur].path && settled.isDir == nodes[cur].isDir
    && settled.children == Indices(|nodes|, |made|)
    && (forall k :: 0 <= k < |made| ==> Untouched(made[k]) && |made[k].path| == |settled.path| + 1)
    && |nodes| + |made| <= maxEntries
    && (settled.truncated ==> |nodes| + |made| == maxEntries)
  }

  function Grown(nodes: seq<Node>, cur: nat, settled: Node, made: seq<Node>): (r: seq<Node>)
    requires cur < |nodes|
    ensures |r| == |nodes| + |made|
    ensures forall k :: 0 <= k < |nodes| && k != cur ==> r[k] == nodes[k]
    ensures r[cur] == settled
    ensures forall k :: 0 <= k < |made| ==> r[|nodes| + k] == made[k]
  {
    nodes[cur := settled] + made
  }

  lemma ForestGrows(nodes: seq<Node>, cur: nat, settled: Node, made: seq<Node>, maxEntries: nat, roots: nat)
    requires Grows(nodes, cur, settled, made, maxEntries) && IsForest(nodes, roots)
    ensures IsForest(Grown(nodes, cur, settled, made), roots)
  {
    var r := Grown(nodes, cur, settled, made);
    forall j | roots <= j < |r| ensures HasParent(r, j) {
      if j < |nodes| {
        assert HasParent(nodes, j);
        var i :| 0 <= i < j && j in nodes[i].children;
        assert j in r[i].children;
      } else {
        assert r[cur].children[j - |nodes|] == j;
      }
    }
    assert forall x :: x in settled.children ==> x >= |nodes|;
    assert forall i, k :: 0 <= i < |nodes| && 0 <= k < |nodes[i].children| ==> nodes[i].children[k] < |nodes|;
    assert forall i, x :: 0 <= i < |nodes| && x in nodes[i].children ==> x < |nodes|;
    forall i, j | 0 <= i < j < |r| ensures NoneShared(r[i].children, r[j].children) {
      assert i >= |nodes| ==> r[i].children == [];
      assert j >= |nodes| ==> r[j].children == [];
    }
  }

  lemma LevelsGrow(nodes: seq<Node>, cur: nat, settled: Node, made: seq<Node>, maxEntries: nat, head: nat)
    requires Grows(nodes, cur, settled, made, maxEntries) && Levelled(nodes, head) && head <= cur
    ensures Levelled(Grown(nodes, cur, settled, made), cur + 1)
  {
    var r := Grown(nodes, cur, settled, made);
    assert forall k :: 0 <= k < |nodes| ==> |r[k].path| == |nodes[k].path|;
    assert forall k :: |nodes| <= k < |r| ==> |r[k].path| == |nodes[cur].path| + 1;
  }

  lemma FairGrows(nodes: seq<Node>, cur: nat, settled: Node, made: seq<Node>, maxEntries: nat, head: nat)
    requires Grows(nodes, cur, settled, made, maxEntries) && Levelled(nodes, head) && head <= cur
    requires Fair(nodes, maxEntries)
    ensures Fair(Grown(nodes, cur, settled, made), maxEntries)
  {
    var r := Grown(nodes, cur, settled, made);
    assert forall k :: 0 <= k < |nodes| ==> |r[k].path| == |nodes[k].path|;
    assert forall k :: |nodes| <= k < |r| ==> |r[k].path| == |nodes[cur].path| + 1;
  }

  lemma VisitedGrows(fs: FileSystem, nodes: seq<Node>, cur: nat, settled: Node, made: seq<Node>, maxEntries: nat, i: nat,
                     maxDepth: nat)
    requires Grows(nodes, cur, settled, made, maxEntries) && i < |nodes| && i != cur
    requires Visited(fs, nodes, i, maxDepth)
    ensures Visited(fs, Grown(nodes, cur, settled, made), i, maxDepth)
  {
    var r := Grown(nodes, cur, settled, made);
    assert forall k :: 0 <= k < |nodes| ==> r[k].path == nodes[k].path && r[k].isDir == nodes[k].isDir;
  }

  lemma SettledGrows(fs: FileSystem, nodes: seq<Node>, cur: nat, settled: Node, made: seq<Node>, maxEntries: nat,
                     head: nat, maxDepth: nat)
    requires Grows(nodes, cur, settled, made, maxEntries) && head <= cur && Settled(fs, nodes, head, maxDepth)
    requires nodes[cur].isDir && forall k :: head <= k < cur ==> !nodes[k].isDir
    requires Visited(fs, Grown(nodes, cur, settled, made), cur, maxDepth)
    ensures Settled(fs, Grown(nodes, cur, settled, made), cur + 1, maxDepth)
  {
    var r := Grown(nodes, cur, settled, made);
    assert forall i :: |nodes| <= i < |r| ==> r[i] == made[i - |nodes|];
    forall i | 0 <= i < |r| && i < cur + 1 && r[i].isDir ensures Visited(fs, r, i, maxDepth) {
      if i < cur {
        VisitedGrows(fs, nodes, cur, settled, made, maxEntries, i, maxDepth);
      }
    }
  }

  lemma QueueGrows(nodes: seq<Node>, cur: nat, settled: Node, made: seq<Node>, head: nat)
    requires cur < |nodes| && settled.isDir == nodes[cur].isDir && head <= |nodes|
    requires Dirs(nodes, head) != [] && cur == Dirs(nodes, head)[0]
    ensures var r := Grown(nodes, cur, settled, made);
            Dirs(r, cur + 1) == Dirs(nodes, head)[1..] + Dirs(r, |nodes|)
  {
    DirsHead(nodes, head);
    DirsSame(nodes, nodes[cur := settled], cur + 1);
    DirsAppend(nodes[cur := settled], made, cur + 1);
  }

  /** The new nodes are shown entries of the directory. */
  predicate Comes(fs: FileSystem, parent: Path, made: seq<Node>, maxDepth: nat) {
    made != [] ==>
      && |parent| <= maxDepth && fs(parent).Some?
      && forall k :: 0 <= k < |made| ==> ComesFrom(Shown(fs(parent).value), parent, made[k])
  }

  predicate ComesFrom(shown: seq<Entry>, parent: Path, n: Node) {
    exists e :: e in shown && n.path == parent + [e.name] && n.isDir == e.isDir
  }

  lemma ExpandGrows(fs: FileSystem, nodes: seq<Node>, cur: nat, shown: seq<Entry>, n: nat, cut: bool,
                    maxDepth: nat, maxEntries: nat) returns (settled: Node, made: seq<Node>)
    requires cur < |nodes| && Untouched(nodes[cur]) && |nodes[cur].path| <= maxDepth
    requires fs(nodes[cur].path).Some? && shown == Shown(fs(nodes[cur].path).value)
    requires n <= |shown| && |nodes| + n <= maxEntries
    requires if cut then |nodes| + n == maxEntries else n == |shown|
    ensures settled == nodes[cur].(children := Indices(|nodes|, n), truncated := cut)
    ensures made == NodesOf(nodes[cur].path, shown[..n])
    ensures Grows(nodes, cur, settled, made, maxEntries)
    ensures Visited(fs, Grown(nodes, cur, settled, made), cur, maxDepth)
    ensures Comes(fs, nodes[cur].path, made, maxDepth)
  {
    settled := nodes[cur].(children := Indices(|nodes|, n), truncated := cut);
    made := NodesOf(nodes[cur].path, shown[..n]);
    assert Visited(fs, Grown(nodes, cur, settled, made), cur, maxDepth) by {
      ExpandedLists(nodes, cur, settled, shown, n);
    }
    assert Comes(fs, nodes[cur].path, made, maxDepth) by {
      ExpandedComes(nodes[cur].path, shown, n);
    }
  }

  lemma ExpandedComes(parent: Path, shown: seq<Entry>, n: nat)
    requires n <= |shown|
    ensures var made := NodesOf(parent, shown[..n]); forall k :: 0 <= k < |made| ==> ComesFrom(shown, parent, made[k])
  {
    forall k | 0 <= k < n ensures ComesFrom(shown, parent, NodesOf(parent, shown[..n])[k]) {
      assert shown[k] in shown;
    }
  }

  lemma ExpandedLists(nodes: seq<Node>, cur: nat, settled: Node, shown: seq<Entry>, n: nat)
    requires cur < |nodes| && n <= |shown| && settled.path == nodes[cur].path && settled.children == Indices(|nodes|, n)
    ensures Lists(Grown(nodes, cur, settled, NodesOf(nodes[cur].path, shown[..n])), cur, shown, n)
  {
    hide Grown, NodesOf, Indices;
    var r := Grown(nodes, cur, settled, NodesOf(nodes[cur].path, shown[..n]));
    assert |settled.children| == n;
    forall k | 0 <= k < n
      ensures settled.children[k] < |r|
      ensures r[settled.children[k]].path == settled.path + [shown[k].name] && r[settled.children[k]].isDir == shown[k].isDir
    {
      ChildAt(nodes, cur, settled, shown, n, k);
    }
  }

  lemma ChildAt(nodes: seq<Node>, cur: nat, settled: Node, shown: seq<Entry>, n: nat, k: nat)
    requires cur < |nodes| && k < n <= |shown| && settled.children == Indices(|nodes|, n)
    ensures var child := settled.children[k];
            var r := Grown(nodes, cur, settled, NodesOf(nodes[cur].path, shown[..n]));
            && child < |r|
            && r[child].path == nodes[cur].path + [shown[k].name] && r[child].isDir == shown[k].isDir
  {
    hide Grown, NodesOf, Indices;
    var made := NodesOf(nodes[cur].path, shown[..n]);
    MadeAt(nodes[cur].path, shown, n, k);
    assert Grown(nodes, cur, settled, made)[|nodes| + k] == made[k];
  }

  lemma MadeAt(parent: Path, shown: seq<Entry>, n: nat, k: nat)
    requires k < n <= |shown|
    ensures var made := NodesOf(parent, shown[..n]);
            k < |made| && made[k].path == parent + [shown[k].name] && made[k].isDir == shown[k].isDir
  {
    assert shown[..n][k] == shown[k];
  }

  /** What Visit does to the nodes, as growth. */
  lemma VisitGrows(fs: FileSystem, w: Walk, maxDepth: nat, maxEntries: nat) returns (settled: Node, made: seq<Node>)
    requires w.queue != [] && w.queue[0] < |w.nodes| <= maxEntries
    requires Untouched(w.nodes[w.queue[0]])
    ensures var cur := w.queue[0];
            var r := Grown(w.nodes, cur, settled, made);
            && Grows(w.nodes, cur, settled, made, maxEntries)
            && Visit(fs, w, maxDepth, maxEntries) == Walk(r, w.queue[1..] + Dirs(r, |w.nodes|))
            && Visited(fs, r, cur, maxDepth)
            && Comes(fs, w.nodes[cur].path, made, maxDepth)
  {
    var cur := w.queue[0];
    var node := w.nodes[cur];
    if |node.path| <= maxDepth && |w.nodes| < maxEntries && fs(node.path).Some? {
      var entries := fs(node.path).value;
      var budget := maxEntries - |w.nodes|;
      CutIsExact(entries, budget);
      settled, made := ExpandGrows(fs, w.nodes, cur, Shown(entries), Min(budget, |Shown(entries)|),
                                   Overflows(entries, budget), maxDepth, maxEntries);
    } else {
      settled := node.(truncated := |node.path| <= maxDepth && |w.nodes| >= maxEntries);
      made := [];
      assert w.nodes[cur := settled] + [] == w.nodes[cur := settled];
      assert !settled.truncated ==> w.nodes[cur := settled] == w.nodes;
      assert w.queue[1..] + [] == w.queue[1..];
    }
  }

  lemma CutIsExact(entries: seq<Entry>, budget: nat)
    ensures Overflows(entries, budget) ==> |Cut(entries, budget)| == budget
    ensures !Overflows(entries, budget) ==> Cut(entries, budget) == Shown(entries)
  {
    if i :| 0 <= i < |entries| && !Skipped(entries[i]) && |Shown(entries[..i])| >= budget {
      ShownGrows(entries, i);
    } else {
      AllFit(entries, |entries|, budget);
      assert entries[..|entries|] == entries;
    }
  }

  lemma {:induction false} AllFit(entries: seq<Entry>, n: nat, budget: nat)
    requires n <= |entries| && !OverflowsBy(entries, n, budget)
    ensures |Shown(entries[..n])| <= budget
  {
    if n > 0 {
      OneMore(entries, n - 1);
      AllFit(entries, n - 1, budget);
    }
  }

  lemma PlacedGrows(fs: FileSystem, nodes: seq<Node>, cur: nat, settled: Node, made: seq<Node>, maxDepth: nat)
    requires cur < |nodes| && nodes[cur].isDir && Placed(fs, nodes, maxDepth)
    requires settled.path == nodes[cur].path && settled.isDir
    requires Comes(fs, nodes[cur].path, made, maxDepth)
    ensures Placed(fs, Grown(nodes, cur, settled, made), maxDepth)
  {
    var r := Grown(nodes, cur, settled, made);
    var parent := nodes[cur].path;
    forall k | 0 <= k < |made| ensures Present(fs, made[k].path, made[k].isDir) {
      assert ComesFrom(Shown(fs(parent).value), parent, made[k]);
      var e :| e in Shown(fs(parent).value) && made[k].path == parent + [e.name] && made[k].isDir == e.isDir;
      OffersShown(fs(parent).value, e.name, e.isDir);
      assert made[k].path[..|parent|] == parent;
    }
    forall i | 0 <= i < |r| ensures Present(fs, r[i].path, r[i].isDir) && |r[i].path| <= maxDepth + 1 {
      if i >= |nodes| {
        assert r[i] == made[i - |nodes|];
      } else {
        assert r[i].path == nodes[i].path && r[i].isDir == nodes[i].isDir;
      }
    }
  }

  lemma GrownIsShaped(nodes: seq<Node>, cur: nat, settled: Node, made: seq<Node>, maxEntries: nat, head: nat, roots: nat)
    requires Grows(nodes, cur, settled, made, maxEntries) && head <= cur && Shaped(nodes, head, roots, maxEntries)
    ensures Shaped(Grown(nodes, cur, settled, made), cur + 1, roots, maxEntries)
  {
    ForestGrows(nodes, cur, settled, made, maxEntries, roots);
    LevelsGrow(nodes, cur, settled, made, maxEntries, head);
    FairGrows(nodes, cur, settled, made, maxEntries, head);
  }

  lemma GrownIsTruthful(fs: FileSystem, nodes: seq<Node>, cur: nat, settled: Node, made: seq<Node>, maxEntries: nat,
                        head: nat, maxDepth: nat)
    requires Grows(nodes, cur, settled, made, maxEntries) && head <= cur && nodes[cur].isDir
    requires forall k :: head <= k < cur ==> !nodes[k].isDir
    requires Truthful(fs, nodes, head, maxDepth)
    requires Visited(fs, Grown(nodes, cur, settled, made), cur, maxDepth)
    requires Comes(fs, nodes[cur].path, made, maxDepth)
    ensures Truthful(fs, Grown(nodes, cur, settled, made), cur + 1, maxDepth)
  {
    SettledGrows(fs, nodes, cur, settled, made, maxEntries, head, maxDepth);
    PlacedGrows(fs, nodes, cur, settled, made, maxDepth);
  }

  /** One turn of the loop keeps everything, with the head just past the visited node. */
  lemma VisitKeeps(fs: FileSystem, w: Walk, head: nat, roots: nat, maxDepth: nat, maxEntries: nat)
    requires Keeps(fs, w, head, roots, maxDepth, maxEntries) && w.queue != []
    ensures head <= w.queue[0] < |w.nodes| && w.nodes[w.queue[0]].isDir && Untouched(w.nodes[w.queue[0]])
    ensures var v := Visit(fs, w, maxDepth, maxEntries);
            && Keeps(fs, v, w.queue[0] + 1, roots, maxDepth, maxEntries)
            && (|v.nodes| > |w.nodes| || (|v.nodes| == |w.nodes| && |v.queue| < |w.queue|))
  {
    DirsHead(w.nodes, head);
    var settled, made := VisitGrows(fs, w, maxDepth, maxEntries);
    var cur := w.queue[0];
    GrownIsShaped(w.nodes, cur, settled, made, maxEntries, head, roots);
    GrownIsTruthful(fs, w.nodes, cur, settled, made, maxEntries, head, maxDepth);
    QueueGrows(w.nodes, cur, settled, made, head);
  }

  // ---------- the whole walk ----------

  /** `nodes` in the order they are made; the first `roots` are the listed directory's own entries. */
  datatype Tree = Tree(nodes: seq<Node>, roots: nat)

  predicate IsWalk(fs: FileSystem, t: Tree, maxDepth: nat, maxEntries: nat) {
    && |t.nodes| <= maxEntries
    && fs([]).Some? && t.roots <= |t.nodes|
    && RootsAre(t, Cut(fs([]).value, maxEntries))
    && Truthful(fs, t.nodes, |t.nodes|, maxDepth)
    && Shaped(t.nodes, |t.nodes|, t.roots, maxEntries)
  }

  predicate RootsAre(t: Tree, entries: seq<Entry>)
    requires t.roots <= |t.nodes|
  {
    && t.roots == |entries|
    && forall k :: 0 <= k < t.roots ==> t.nodes[k].path == [entries[k].name] && t.nodes[k].isDir == entries[k].isDir
  }

  lemma StartIsTruthful(fs: FileSystem, shown: seq<Entry>, n: nat, maxDepth: nat)
    requires fs([]).Some? && shown == Shown(fs([]).value) && n <= |shown|
    ensures Truthful(fs, NodesOf([], shown[..n]), 0, maxDepth)
  {
    var nodes := NodesOf([], shown[..n]);
    forall k | 0 <= k < |nodes| ensures Present(fs, nodes[k].path, nodes[k].isDir) {
      assert nodes[k].path == [shown[k].name] && nodes[k].path[..0] == [];
      assert shown[k] in shown;
      OffersShown(fs([]).value, shown[k].name, shown[k].isDir);
    }
  }

  lemma StartIsShaped(entries: seq<Entry>, maxEntries: nat)
    ensures var nodes := NodesOf([], entries); Shaped(nodes, 0, |nodes|, maxEntries)
  {
    var nodes := NodesOf([], entries);
    assert forall k :: 0 <= k < |nodes| ==> |nodes[k].path| == 1;
  }

  lemma StartKeeps(fs: FileSystem, maxDepth: nat, maxEntries: nat)
    requires fs([]).Some?
    ensures var nodes := NodesOf([], Cut(fs([]).value, maxEntries));
            Keeps(fs, Walk(nodes, Dirs(nodes, 0)), 0, |nodes|, maxDepth, maxEntries)
  {
    var shown := Shown(fs([]).value);
    StartIsTruthful(fs, shown, Min(maxEntries, |shown|), maxDepth);
    StartIsShaped(Cut(fs([]).value, maxEntries), maxEntries);
  }

  lemma RootsStay(entries: seq<Entry>, nodes: seq<Node>)
    requires Extends(NodesOf([], entries), nodes)
    ensures RootsAre(Tree(nodes, |entries|), entries)
  {
    var start := NodesOf([], entries);
    forall k | 0 <= k < |start| ensures nodes[k].path == [entries[k].name] && nodes[k].isDir == entries[k].isDir {
      assert start[k].path == [] + [entries[k].name] == [entries[k].name];
    }
  }

  /** Growth keeps the nodes there were at their places. */
  predicate Extends(nodes: seq<Node>, later: seq<Node>) {
    |nodes| <= |later| && forall k :: 0 <= k < |nodes| ==>
      later[k].path == nodes[k].path && later[k].isDir == nodes[k].isDir
  }

  lemma VisitExtends(fs: FileSystem, w: Walk, maxDepth: nat, maxEntries: nat)
    requires w.queue != [] && w.queue[0] < |w.nodes| <= maxEntries && Untouched(w.nodes[w.queue[0]])
    ensures Extends(w.nodes, Visit(fs, w, maxDepth, maxEntries).nodes)
  {
    var settled, made := VisitGrows(fs, w, maxDepth, maxEntries);
  }

  /** One turn of the loop, seen from its start. */
  lemma TurnKeeps(fs: FileSystem, start: seq<Node>, w: Walk, head: nat, maxDepth: nat, maxEntries: nat)
    requires Keeps(fs, w, head, |start|, maxDepth, maxEntries) && w.queue != [] && Extends(start, w.nodes)
    ensures w.queue[0] < |w.nodes|
    ensures var v := Visit(fs, w, maxDepth, maxEntries);
            && Keeps(fs, v, w.queue[0] + 1, |start|, maxDepth, maxEntries) && Extends(start, v.nodes)
            && (|v.nodes| > |w.nodes| || (|v.nodes| == |w.nodes| && |v.queue| < |w.queue|))
  {
    VisitKeeps(fs, w, head, |start|, maxDepth, maxEntries);
    VisitExtends(fs, w, maxDepth, maxEntries);
  }

  /** expandFileTree: terminates on any file system, since each turn spends budget or shortens the queue. */
  method ExpandFileTree(fs: FileSystem, start: seq<Node>, total: nat, maxDepth: nat, maxEntries: nat)
    returns (nodes: seq<Node>, count: nat)
    requires total == |start| && Keeps(fs, Walk(start, Dirs(start, 0)), 0, |start|, maxDepth, maxEntries)
    ensures count == |nodes| && Extends(start, nodes)
    ensures Keeps(fs, Walk(nodes, []), |nodes|, |start|, maxDepth, maxEntries)
  {
    nodes, count := start, total;
    var queue := EnqueueDirs(nodes, 0);
    ghost var head := 0;
    while queue != []
      invariant count == |nodes| && Extends(start, nodes)
      invariant Keeps(fs, Walk(nodes, queue), head, |start|, maxDepth, maxEntries)
      decreases maxEntries - count, |queue|
    {
      TurnKeeps(fs, start, Walk(nodes, queue), head, maxDepth, maxEntries);
      head := queue[0] + 1;
      nodes, queue, count := VisitNext(fs, nodes, queue, count, maxDepth, maxEntries);
    }
    NothingQueued(nodes, head);
    LastHead(fs, nodes, head, |start|, maxDepth, maxEntries);
  }

  method VisitNext(fs: FileSystem, all: seq<Node>, waiting: seq<nat>, total: nat, maxDepth: nat, maxEntries: nat)
    returns (nodes: seq<Node>, queue: seq<nat>, count: nat)
    requires waiting != [] && waiting[0] < |all| && total == |all| <= maxEntries
    ensures Walk(nodes, queue) == Visit(fs, Walk(all, waiting), maxDepth, maxEntries)
    ensures count == |nodes|
  {
    var cur := waiting[0];
    nodes, queue, count := all, waiting[1..], total;
    if |nodes[cur].path| > maxDepth { return; }
    if count >= maxEntries {
      nodes := nodes[cur := nodes[cur].(truncated := true)];
      return;
    }
    var listing := fs(nodes[cur].path);
    if listing.None? { return; }
    var kept, truncated, now := ListEntries(listing.value, count, maxEntries);
    var path := nodes[cur].path;
    nodes := nodes[cur := nodes[cur].(children := Indices(count, |kept|), truncated := truncated)] + NodesOf(path, kept);
    var more := EnqueueDirs(nodes, count);
    queue, count := queue + more, now;
  }

  lemma {:induction false} NothingQueued(nodes: seq<Node>, head: nat)
    requires head <= |nodes| && Dirs(nodes, head) == []
    ensures forall k :: head <= k < |nodes| ==> !nodes[k].isDir
    decreases |nodes| - head
  {
    if head < |nodes| {
      NothingQueued(nodes, head + 1);
    }
  }

  lemma LastHead(fs: FileSystem, nodes: seq<Node>, head: nat, roots: nat, maxDepth: nat, maxEntries: nat)
    requires Keeps(fs, Walk(nodes, []), head, roots, maxDepth, maxEntries)
    requires forall k :: head <= k < |nodes| ==> !nodes[k].isDir
    ensures Keeps(fs, Walk(nodes, []), |nodes|, roots, maxDepth, maxEntries)
  {
  }

  /** readFileTreeLimited: an unreadable directory is the only error. */
  method ReadFileTree(fs: FileSystem, maxDepth: nat, maxEntries: nat) returns (tree: Option<Tree>, count: nat)
    ensures tree.None? <==> fs([]).None?
    ensures tree.Some? ==> IsWalk(fs, tree.value, maxDepth, maxEntries) && count == |tree.value.nodes|
  {
    count := 0;
    var listing := fs([]);
    if listing.None? { return None, count; }
    var kept, _, now := ListEntries(listing.value, count, maxEntries);
    var start := NodesOf([], kept);
    StartKeeps(fs, maxDepth, maxEntries);
    var nodes, total := ExpandFileTree(fs, start, now, maxDepth, maxEntries);
    RootsStay(kept, nodes);
    tree, count := Some(Tree(nodes, |start|)), total;
  }

  // ---------- what the tree says ----------

  /** Every readable directory within the depth limit that is not truncated lists exactly what it shows, in order. */
  lemma UntruncatedIsComplete(fs: FileSystem, t: Tree, maxDepth: nat, maxEntries: nat, i: nat)
    requires IsWalk(fs, t, maxDepth, maxEntries)
    requires i < |t.nodes| && t.nodes[i].isDir && |t.nodes[i].path| <= maxDepth
    requires !t.nodes[i].truncated && fs(t.nodes[i].path).Some?
    ensures var shown := Shown(fs(t.nodes[i].path).value); Lists(t.nodes, i, shown, |shown|)
  {
    assert Visited(fs, t.nodes, i, maxDepth);
  }

  /** So its children are exactly the entries a tree should show. */
  lemma UntruncatedHasEntries(fs: FileSystem, t: Tree, maxDepth: nat, maxEntries: nat, i: nat, name: string, isDir: bool)
    requires IsWalk(fs, t, maxDepth, maxEntries)
    requires i < |t.nodes| && t.nodes[i].isDir && |t.nodes[i].path| <= maxDepth
    requires !t.nodes[i].truncated && fs(t.nodes[i].path).Some?
    ensures Offers(fs(t.nodes[i].path).value, name, isDir) <==>
              exists k :: 0 <= k < |t.nodes[i].children| && IsChild(t, i, k, name, isDir)
  {
    var entries := fs(t.nodes[i].path).value;
    UntruncatedIsComplete(fs, t, maxDepth, maxEntries, i);
    OffersShown(entries, name, isDir);
    if Offers(entries, name, isDir) {
      var e :| e in Shown(entries) && e.name == name && e.isDir == isDir;
      var k :| 0 <= k < |Shown(entries)| && Shown(entries)[k] == e;
      assert IsChild(t, i, k, name, isDir);
    }
    if k :| 0 <= k < |t.nodes[i].children| && IsChild(t, i, k, name, isDir) {
      var e := Shown(entries)[k];
      assert (t.nodes[i].path + [e.name])[|t.nodes[i].path|] == (t.nodes[i].path + [name])[|t.nodes[i].path|];
      assert e in Shown(entries) && e.name == name && e.isDir == isDir;
    }
  }

  predicate IsChild(t: Tree, i: nat, k: nat, name: string, isDir: bool)
    requires i < |t.nodes| && k < |t.nodes[i].children|
  {
    var child := t.nodes[i].children[k];
    child < |t.nodes| && t.nodes[child].path == t.nodes[i].path + [name] && t.nodes[child].isDir == isDir
  }

  /** The first levels are served first: a truncated directory means nothing was made two levels below it. */
  lemma TruncationIsFair(fs: FileSystem, t: Tree, maxDepth: nat, maxEntries: nat, i: nat, j: nat)
    requires IsWalk(fs, t, maxDepth, maxEntries) && i < |t.nodes| && j < |t.nodes| && t.nodes[i].truncated
    ensures |t.nodes| == maxEntries && |t.nodes[j].path| <= |t.nodes[i].path| + 1
  {
  }

  predicate Has(t: Tree, path: Path, isDir: bool) {
    exists i :: 0 <= i < |t.nodes| && t.nodes[i].path == path && t.nodes[i].isDir == isDir
  }

  predicate IsUncut(fs: FileSystem, t: Tree, maxEntries: nat)
    requires fs([]).Some?
  {
    |Shown(fs([]).value)| <= maxEntries && NothingTruncated(t)
  }

  /** When nothing is truncated and the listed directory fits, the tree has exactly the paths there are down to the limit. */
  lemma UncutTreeIsExact(fs: FileSystem, t: Tree, maxDepth: nat, maxEntries: nat, path: Path, isDir: bool)
    requires IsWalk(fs, t, maxDepth, maxEntries) && IsUncut(fs, t, maxEntries)
    ensures Has(t, path, isDir) <==> Present(fs, path, isDir) && |path| <= maxDepth + 1
  {
    if Present(fs, path, isDir) && |path| <= maxDepth + 1 {
      PresentIsFound(fs, t, maxDepth, maxEntries, path, isDir);
    }
  }

  predicate NothingTruncated(t: Tree) { forall i :: 0 <= i < |t.nodes| ==> !t.nodes[i].truncated }

  /** A directory lists each name once. */
  predicate DistinctNames(entries: seq<Entry>) {
    forall i, j :: 0 <= i < j < |entries| ==> entries[i].name != entries[j].name
  }

  ghost predicate IsExact(fs: FileSystem, t: Tree, maxDepth: nat) {
    forall path, isDir :: Has(t, path, isDir) <==> Present(fs, path, isDir) && |path| <= maxDepth + 1
  }

  /**
   The truncation of the listed directory itself is dropped: a tree without a truncated node has exactly the paths
   there are if and only if that directory shows no more entries than the budget.
   */
  lemma UnmarkedTreeIsExactIff(fs: FileSystem, t: Tree, maxDepth: nat, maxEntries: nat)
    requires IsWalk(fs, t, maxDepth, maxEntries) && NothingTruncated(t)
    requires DistinctNames(Shown(fs([]).value))
    ensures IsExact(fs, t, maxDepth) <==> |Shown(fs([]).value)| <= maxEntries
  {
    var shown := Shown(fs([]).value);
    if |shown| <= maxEntries {
      forall path, isDir
        ensures Has(t, path, isDir) <==> Present(fs, path, isDir) && |path| <= maxDepth + 1
      {
        UncutTreeIsExact(fs, t, maxDepth, maxEntries, path, isDir);
      }
    } else {
      RootEntryIsMissing(fs, t, maxDepth, maxEntries);
    }
  }

  /** The first entry past the budget is there, and the tree does not have it. */
  lemma RootEntryIsMissing(fs: FileSystem, t: Tree, maxDepth: nat, maxEntries: nat)
    requires IsWalk(fs, t, maxDepth, maxEntries)
    requires DistinctNames(Shown(fs([]).value)) && |Shown(fs([]).value)| > maxEntries
    ensures var e := Shown(fs([]).value)[maxEntries];
            Present(fs, [e.name], e.isDir) && !Has(t, [e.name], e.isDir)
  {
    var shown := Shown(fs([]).value);
    var e := shown[maxEntries];
    OffersShown(fs([]).value, e.name, e.isDir);
    assert [e.name][..0] == [] && e in shown;
    assert t.roots == |t.nodes| == maxEntries;
    assert forall k :: 0 <= k < t.roots ==> t.nodes[k].path == [shown[k].name] && shown[k].name != e.name;
    assert forall k :: 0 <= k < t.roots ==> t.nodes[k].path[0] != [e.name][0];
  }

  lemma {:induction false} PresentIsFound(
      fs: FileSystem, t: Tree, maxDepth: nat, maxEntries: nat, path: Path, isDir: bool)
    requires IsWalk(fs, t, maxDepth, maxEntries) && IsUncut(fs, t, maxEntries)
    requires Present(fs, path, isDir) && |path| <= maxDepth + 1
    ensures Has(t, path, isDir)
    decreases |path|
  {
    var parent, name := path[..|path| - 1], path[|path| - 1];
    assert path == parent + [name];
    var k := ShownAt(fs, parent, name, isDir);
    if parent == [] {
      RootIsFound(fs, t, maxDepth, maxEntries, k);
    } else {
      PresentIsFound(fs, t, maxDepth, maxEntries, parent, true);
      var i :| 0 <= i < |t.nodes| && t.nodes[i].path == parent && t.nodes[i].isDir;
      ChildOf(fs, t, maxDepth, maxEntries, i, k);
    }
  }

  lemma RootIsFound(fs: FileSystem, t: Tree, maxDepth: nat, maxEntries: nat, k: nat)
    requires IsWalk(fs, t, maxDepth, maxEntries) && IsUncut(fs, t, maxEntries) && k < |Shown(fs([]).value)|
    ensures var e := Shown(fs([]).value)[k]; Has(t, [e.name], e.isDir)
  {
    assert t.nodes[k].path == [Shown(fs([]).value)[k].name];
  }

  lemma ShownAt(fs: FileSystem, parent: Path, name: string, isDir: bool) returns (k: nat)
    requires Present(fs, parent + [name], isDir)
    ensures fs(parent).Some? && k < |Shown(fs(parent).value)|
    ensures Shown(fs(parent).value)[k].name == name && Shown(fs(parent).value)[k].isDir == isDir
  {
    assert (parent + [name])[..|parent|] == parent;
    var shown := Shown(fs(parent).value);
    OffersShown(fs(parent).value, name, isDir);
    var e :| e in shown && e.name == name && e.isDir == isDir;
    k :| 0 <= k < |shown| && shown[k] == e;
  }

  lemma ChildOf(fs: FileSystem, t: Tree, maxDepth: nat, maxEntries: nat, i: nat, k: nat)
    requires IsWalk(fs, t, maxDepth, maxEntries)
    requires i < |t.nodes| && t.nodes[i].isDir && |t.nodes[i].path| <= maxDepth
    requires !t.nodes[i].truncated && fs(t.nodes[i].path).Some? && k < |Shown(fs(t.nodes[i].path).value)|
    ensures var e := Shown(fs(t.nodes[i].path).value)[k]; Has(t, t.nodes[i].path + [e.name], e.isDir)
  {
    UntruncatedIsComplete(fs, t, maxDepth, maxEntries, i);
    var c := t.nodes[i].children[k];
    assert t.nodes[c].path == t.nodes[i].path + [Shown(fs(t.nodes[i].path).value)[k].name];
  }

  /** The listed directory's own truncation is dropped: two files, a budget of one, and no node says so. */
  lemma RootTruncationIsSilent(fs: FileSystem, a: Entry, b: Entry)
    requires fs([]) == Some([a, b]) && a.name != b.name && !a.isDir && !b.isDir && a.hasInfo && b.hasInfo
    ensures var t := Tree([Node([a.name], false, [], false)], 1);
            && IsWalk(fs, t, 0, 1) && NothingTruncated(t)
            && Present(fs, [b.name], false) && !Has(t, [b.name], false)
  {
    hide IsWalk, Shown, Present, Has;
    var t := Tree([Node([a.name], false, [], false)], 1);
    ShowsBoth(a, b);
    OneFileIsWalk(fs, a, b);
    assert DistinctNames([a, b]);
    RootEntryIsMissing(fs, t, 0, 1);
    assert Shown(fs([]).value)[1] == b;
  }

  lemma OneFileIsWalk(fs: FileSystem, a: Entry, b: Entry)
    requires fs([]) == Some([a, b]) && !a.isDir && Shown([a, b]) == [a, b]
    ensures IsWalk(fs, Tree([Node([a.name], false, [], false)], 1), 0, 1)
  {
    hide Shaped, Truthful, Shown;
    OneFileIsShaped(Node([a.name], false, [], false));
    OneFileIsTruthful(fs, a, b);
    assert Cut([a, b], 1) == [a];
  }

  lemma OneFileIsShaped(n: Node)
    requires Untouched(n)
    ensures Shaped([n], 1, 1, 1)
  {
  }

  lemma OneFileIsTruthful(fs: FileSystem, a: Entry, b: Entry)
    requires fs([]) == Some([a, b]) && !a.isDir && a in Shown([a, b])
    ensures Truthful(fs, [Node([a.name], false, [], false)], 1, 0)
  {
    assert [a.name][..0] == [];
    OffersShown([a, b], a.name, false);
    assert Present(fs, [a.name], false);
  }

  lemma ShowsBoth(a: Entry, b: Entry)
    requires !a.isDir && !b.isDir && a.hasInfo && b.hasInfo
    ensures Shown([a, b]) == [a, b]
  {
    assert [a, b][..1] == [a] && [a][..0] == [];
    assert Shown([a]) == [] + [a] == [a];
    assert [a] + [b] == [a, b];
  }
}
