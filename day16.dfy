/** Day 16: proboscidea volcanium.  Valves with flow rates are joined by
    tunnels; a breadth-first search from every valve gives the route table,
    and a depth-first search over which valve each participant opens next
    finds the most pressure that can be released before a time limit. */
module Day16 {
  import opened Common
  import Bfs

  datatype ValveDescription = ValveDescription(name: string, rate: nat, tunnels: seq<string>)

  // ---------------------------------------------------------------------------
  // Numbering the valves

  /** `name_to_idx`: a valve's position in the input; when two valves share
      a name the later one wins. */
  function NameIndex(valves: seq<ValveDescription>): (r: map<string, nat>)
    ensures forall name :: name in r ==> r[name] < |valves|
  {
    if valves == [] then map[]
    else NameIndex(valves[..|valves| - 1])[valves[|valves| - 1].name := |valves| - 1]
  }

  /** A name is known exactly when some valve carries it, and it maps to the
      last valve that does. */
  lemma {:induction false} NameIndexMeaning(valves: seq<ValveDescription>, name: string)
    ensures name in NameIndex(valves) <==> exists i :: 0 <= i < |valves| && valves[i].name == name
    ensures name in NameIndex(valves) ==>
      var i := NameIndex(valves)[name];
      valves[i].name == name && forall j :: i < j < |valves| ==> valves[j].name != name
  {
    if valves != [] {
      var init := valves[..|valves| - 1];
      NameIndexMeaning(init, name);
      if name != valves[|valves| - 1].name {
        if exists i :: 0 <= i < |valves| && valves[i].name == name {
          var i :| 0 <= i < |valves| && valves[i].name == name;
          assert init[i].name == name;
        }
        if name in NameIndex(init) {
          assert valves[NameIndex(init)[name]] == init[NameIndex(init)[name]];
        }
      }
    }
  }

  function Names(valves: seq<ValveDescription>): seq<string> {
    seq(|valves|, i requires 0 <= i < |valves| => valves[i].name)
  }

  function Rates(valves: seq<ValveDescription>): seq<nat> {
    seq(|valves|, i requires 0 <= i < |valves| => valves[i].rate)
  }

  /** `relevant_indices`: the valves worth opening, in input order. */
  function RelevantIndices(valves: seq<ValveDescription>): seq<nat> {
    if valves == [] then []
    else
      RelevantIndices(valves[..|valves| - 1])
      + (if 0 < valves[|valves| - 1].rate then [|valves| - 1] else [])
  }

  predicate Increasing(s: seq<nat>) {
    forall i, j :: 0 <= i < j < |s| ==> s[i] < s[j]
  }

  /** The relevant indices are exactly the valves with a positive rate, in
      increasing order. */
  lemma {:induction false} RelevantIndicesMeaning(valves: seq<ValveDescription>)
    ensures Increasing(RelevantIndices(valves))
    ensures forall k :: k in RelevantIndices(valves) <==> 0 <= k < |valves| && 0 < valves[k].rate
  {
    if valves != [] {
      var init := valves[..|valves| - 1];
      RelevantIndicesMeaning(init);
      forall k | 0 <= k < |init| ensures init[k] == valves[k] { }
      var r, r0 := RelevantIndices(valves), RelevantIndices(init);
      forall i, j | 0 <= i < j < |r| ensures r[i] < r[j] {
        if j < |r0| {
          assert r[i] == r0[i] && r[j] == r0[j];
        } else {
          assert r[i] == r0[i] && r0[i] in r0;
        }
      }
    }
  }

  /** Every tunnel leads to a valve that exists (`name_to_idx[s]` panics
      otherwise). */
  predicate TunnelsKnown(valves: seq<ValveDescription>) {
    forall i, j :: 0 <= i < |valves| && 0 <= j < |valves[i].tunnels| ==> valves[i].tunnels[j] in NameIndex(valves)
  }

  /** The tunnels as valve numbers. */
  function Tunnels(valves: seq<ValveDescription>): (t: seq<seq<nat>>)
    requires TunnelsKnown(valves)
    ensures |t| == |valves| && EdgesInRange(t)
  {
    var index := NameIndex(valves);
    seq(|valves|, i requires 0 <= i < |valves| =>
      seq(|valves[i].tunnels|, j requires 0 <= j < |valves[i].tunnels| => index[valves[i].tunnels[j]]))
  }

  predicate EdgesInRange(tunnels: seq<seq<nat>>) {
    forall u, j :: 0 <= u < |tunnels| && 0 <= j < |tunnels[u]| ==> tunnels[u][j] < |tunnels|
  }

  /** A walk through the tunnels, as a sequence of valves. */
  predicate Walk(tunnels: seq<seq<nat>>, w: seq<nat>) {
    && |w| > 0
    && (forall i :: 0 <= i < |w| ==> w[i] < |tunnels|)
    && (forall i :: 0 <= i < |w| - 1 ==> w[i + 1] in tunnels[w[i]])
  }

  // ---------------------------------------------------------------------------
  // The routes from one valve

  /** What the search from `source` leaves in `routes`: the route to the
      source itself is just the source; every route runs through tunnels
      from the source to its target; a route's prefixes are the routes to
      the valves on it; and the valves reached are closed under tunnels,
      one tunnel adding at most one valve to a route. */
  ghost predicate SourceRoutes(tunnels: seq<seq<nat>>, source: nat, routes: seq<seq<nat>>) {
    && |routes| == |tunnels| && source < |routes| && EdgesInRange(tunnels)
    && routes[source] == [source]
    && (forall t :: 0 <= t < |routes| && routes[t] != [] ==>
          Walk(tunnels, routes[t]) && routes[t][0] == source && routes[t][|routes[t]| - 1] == t)
    && (forall t, k :: 0 <= t < |routes| && 0 <= k < |routes[t]| ==> routes[routes[t][k]] == routes[t][..k + 1])
    && (forall u, j :: 0 <= u < |routes| && routes[u] != [] && 0 <= j < |tunnels[u]| ==>
          routes[tunnels[u][j]] != [] && |routes[tunnels[u][j]]| <= |routes[u]| + 1)
  }

  /** The search tree grown from `source`: the root costs 0 and has no
      parent; every other node hangs by a tunnel from a parent one step
      closer. */
  ghost predicate UnitTree(tunnels: seq<seq<nat>>, source: nat, view: map<nat, Bfs.Cell<nat>>) {
    && source < |tunnels| && source in view && view[source] == Bfs.Cell(None, 0)
    && forall k :: k in view && k != source ==> TreeEdge(tunnels, view, k)
  }

  ghost predicate TreeEdge(tunnels: seq<seq<nat>>, view: map<nat, Bfs.Cell<nat>>, k: nat)
    requires k in view
  {
    && view[k].parent.Some? && view[k].parent.value in view && view[k].parent.value < |tunnels|
    && k in tunnels[view[k].parent.value]
    && view[k].cost == view[view[k].parent.value].cost + 1
  }

  /** Every route recorded so far is the tree path to its target. */
  ghost predicate Recorded(view: map<nat, Bfs.Cell<nat>>, routes: seq<seq<nat>>) {
    forall v :: 0 <= v < |routes| && routes[v] != [] ==>
      v in view && Bfs.IsPath(view, routes[v]) && routes[v][|routes[v]| - 1] == v
  }

  /** Every reached node has been visited or waits in the frontier. */
  ghost predicate Pending(view: map<nat, Bfs.Cell<nat>>, consider: seq<nat>, routes: seq<seq<nat>>) {
    forall k :: k in view ==> k < |routes| && (routes[k] != [] || k in consider)
  }

  /** The first `j` tunnels out of `u` lead to reached nodes at most one step
      further from the source. */
  ghost predicate ClosedUpTo(tunnels: seq<seq<nat>>, view: map<nat, Bfs.Cell<nat>>, u: nat, j: nat)
    requires u < |tunnels| && u in view && j <= |tunnels[u]|
  {
    forall i :: 0 <= i < j ==> tunnels[u][i] in view && view[tunnels[u][i]].cost <= view[u].cost + 1
  }

  /** Every visited node other than `except` has had all its tunnels followed. */
  ghost predicate Closed(tunnels: seq<seq<nat>>, view: map<nat, Bfs.Cell<nat>>, routes: seq<seq<nat>>, except: int) {
    forall u :: 0 <= u < |routes| && u < |tunnels| && routes[u] != [] && u != except ==>
      u in view && ClosedUpTo(tunnels, view, u, |tunnels[u]|)
  }

  ghost predicate Base(tunnels: seq<seq<nat>>, source: nat, view: map<nat, Bfs.Cell<nat>>, consider: seq<nat>, d: int, routes: seq<seq<nat>>) {
    && |routes| == |tunnels| && EdgesInRange(tunnels)
    && UnitTree(tunnels, source, view)
    && Bfs.Layered(view, consider, d)
    && Recorded(view, routes)
    && Pending(view, consider, routes)
  }

  /** The invariant of the search between two visits. */
  ghost predicate Searching(tunnels: seq<seq<nat>>, source: nat, view: map<nat, Bfs.Cell<nat>>, consider: seq<nat>, d: int, routes: seq<seq<nat>>) {
    Base(tunnels, source, view, consider, d, routes) && Closed(tunnels, view, routes, -1)
  }

  /** The invariant while the tunnels out of `v` are followed, `j` of them
      so far. */
  ghost predicate Expanding(tunnels: seq<seq<nat>>, source: nat, view: map<nat, Bfs.Cell<nat>>, consider: seq<nat>, d: int, routes: seq<seq<nat>>, v: nat, j: nat) {
    && Base(tunnels, source, view, consider, d, routes)
    && v < |tunnels| && v in view && view[v].cost == d && routes[v] != [] && j <= |tunnels[v]|
    && Closed(tunnels, view, routes, v)
    && ClosedUpTo(tunnels, view, v, j)
  }

  lemma Start(tunnels: seq<seq<nat>>, source: nat)
    requires EdgesInRange(tunnels) && source < |tunnels|
    ensures Searching(tunnels, source, map[source := Bfs.Cell(None, 0)], [source], 0, seq(|tunnels|, _ => []))
  {
    Bfs.LayeredStart(source, 0);
  }

  /** Visiting the front of the frontier and recording its tree path. */
  lemma Visit(tunnels: seq<seq<nat>>, source: nat, view: map<nat, Bfs.Cell<nat>>, consider: seq<nat>, d: int, routes: seq<seq<nat>>, path: seq<nat>)
    requires Searching(tunnels, source, view, consider, d, routes) && consider != []
    requires Bfs.IsPath(view, path) && path[|path| - 1] == consider[0]
    ensures consider[0] in view && consider[0] < |tunnels|
    ensures Expanding(tunnels, source, view, consider[1..], view[consider[0]].cost, routes[consider[0] := path], consider[0], 0)
  {
    var v := consider[0];
    Bfs.LayeredPop(view, consider, d);
    VisitRecorded(view, routes, v, path);
    VisitPending(view, consider, routes, path);
    VisitClosed(tunnels, view, routes, v, path);
  }

  lemma VisitRecorded(view: map<nat, Bfs.Cell<nat>>, routes: seq<seq<nat>>, v: nat, path: seq<nat>)
    requires Recorded(view, routes) && v < |routes| && v in view
    requires Bfs.IsPath(view, path) && path[|path| - 1] == v
    ensures Recorded(view, routes[v := path])
  {
  }

  lemma VisitPending(view: map<nat, Bfs.Cell<nat>>, consider: seq<nat>, routes: seq<seq<nat>>, path: seq<nat>)
    requires Pending(view, consider, routes) && consider != [] && consider[0] < |routes| && path != []
    ensures Pending(view, consider[1..], routes[consider[0] := path])
  {
    var v := consider[0];
    var routes' := routes[v := path];
    forall k | k in view ensures k < |routes'| && (routes'[k] != [] || k in consider[1..]) {
      if k != v && routes[k] == [] {
        assert k in consider;
        var i :| 0 <= i < |consider| && consider[i] == k;
        assert consider[1..][i - 1] == k;
      }
    }
  }

  lemma VisitClosed(tunnels: seq<seq<nat>>, view: map<nat, Bfs.Cell<nat>>, routes: seq<seq<nat>>, v: nat, path: seq<nat>)
    requires Closed(tunnels, view, routes, -1) && v < |routes|
    ensures Closed(tunnels, view, routes[v := path], v)
  {
    var routes' := routes[v := path];
    forall u | 0 <= u < |routes'| && u < |tunnels| && routes'[u] != [] && u != v
      ensures u in view && ClosedUpTo(tunnels, view, u, |tunnels[u]|)
    {
      assert routes'[u] == routes[u];
    }
  }

  /** Following tunnel `j` out of `v` to a node already reached: it is
      close enough already. */
  lemma RelaxKnown(tunnels: seq<seq<nat>>, source: nat, view: map<nat, Bfs.Cell<nat>>, consider: seq<nat>, d: int, routes: seq<seq<nat>>, v: nat, j: nat)
    requires Expanding(tunnels, source, view, consider, d, routes, v, j) && j < |tunnels[v]|
    requires tunnels[v][j] in view
    ensures Expanding(tunnels, source, view, consider, d, routes, v, j + 1)
  {
    assert view[tunnels[v][j]].cost <= d + 1;
    ClosedUpToNext(tunnels, view, v, j);
  }

  /** Following tunnel `j` out of `v` to a new node: it joins the tree one
      step below `v` and waits in the frontier. */
  lemma RelaxNew(tunnels: seq<seq<nat>>, source: nat, view: map<nat, Bfs.Cell<nat>>, consider: seq<nat>, d: int, routes: seq<seq<nat>>, v: nat, j: nat)
    requires Expanding(tunnels, source, view, consider, d, routes, v, j) && j < |tunnels[v]|
    requires tunnels[v][j] !in view
    ensures Expanding(tunnels, source, Bfs.Relaxed(view, v, tunnels[v][j], 1), consider + [tunnels[v][j]], d, routes, v, j + 1)
  {
    var key := tunnels[v][j];
    var c := Bfs.Cell(Some(v), Bfs.Candidate(view, v, 1));
    var view' := view[key := c];
    Bfs.LayeredRelax(view, consider, d, v, key);
    TreeGrows(tunnels, source, view, v, j);
    RecordedGrows(view, routes, key, c);
    ClosedGrows(tunnels, view, routes, v, key, c);
    ClosedUpToGrows(tunnels, view, v, j, key, c);
    ClosedUpToNext(tunnels, view', v, j);
    PendingGrows(view, consider, routes, key, c);
  }

  lemma ClosedUpToNext(tunnels: seq<seq<nat>>, view: map<nat, Bfs.Cell<nat>>, u: nat, j: nat)
    requires u < |tunnels| && u in view && j < |tunnels[u]| && ClosedUpTo(tunnels, view, u, j)
    requires tunnels[u][j] in view && view[tunnels[u][j]].cost <= view[u].cost + 1
    ensures ClosedUpTo(tunnels, view, u, j + 1)
  {
  }

  lemma ClosedUpToGrows(tunnels: seq<seq<nat>>, view: map<nat, Bfs.Cell<nat>>, u: nat, j: nat, key: nat, c: Bfs.Cell<nat>)
    requires u < |tunnels| && u in view && j <= |tunnels[u]| && ClosedUpTo(tunnels, view, u, j) && key !in view
    ensures ClosedUpTo(tunnels, view[key := c], u, j)
  {
  }

  lemma TreeGrows(tunnels: seq<seq<nat>>, source: nat, view: map<nat, Bfs.Cell<nat>>, v: nat, j: nat)
    requires UnitTree(tunnels, source, view) && v in view && v < |tunnels| && j < |tunnels[v]|
    requires tunnels[v][j] !in view
    ensures UnitTree(tunnels, source, view[tunnels[v][j] := Bfs.Cell(Some(v), view[v].cost + 1)])
  {
    var key := tunnels[v][j];
    var view' := view[key := Bfs.Cell(Some(v), view[v].cost + 1)];
    assert TreeEdge(tunnels, view', key);
    forall k | k in view' && k != source ensures TreeEdge(tunnels, view', k) {
      if k != key {
        assert TreeEdge(tunnels, view, k);
      }
    }
  }

  lemma RecordedGrows(view: map<nat, Bfs.Cell<nat>>, routes: seq<seq<nat>>, key: nat, c: Bfs.Cell<nat>)
    requires Recorded(view, routes) && key !in view
    ensures Recorded(view[key := c], routes)
  {
    var view' := view[key := c];
    forall t | 0 <= t < |routes| && routes[t] != []
      ensures t in view' && Bfs.IsPath(view', routes[t]) && routes[t][|routes[t]| - 1] == t
    {
      assert Bfs.IsPath(view, routes[t]);
    }
  }

  lemma PendingGrows(view: map<nat, Bfs.Cell<nat>>, consider: seq<nat>, routes: seq<seq<nat>>, key: nat, c: Bfs.Cell<nat>)
    requires Pending(view, consider, routes) && key < |routes|
    ensures Pending(view[key := c], consider + [key], routes)
  {
  }

  lemma ClosedGrows(tunnels: seq<seq<nat>>, view: map<nat, Bfs.Cell<nat>>, routes: seq<seq<nat>>, v: nat, key: nat, c: Bfs.Cell<nat>)
    requires Closed(tunnels, view, routes, v) && key !in view
    ensures Closed(tunnels, view[key := c], routes, v)
  {
    var view' := view[key := c];
    forall u | 0 <= u < |routes| && u < |tunnels| && routes[u] != [] && u != v
      ensures u in view' && ClosedUpTo(tunnels, view', u, |tunnels[u]|)
    {
      assert ClosedUpTo(tunnels, view, u, |tunnels[u]|);
    }
  }

  /** A tree path starts at the source, follows tunnels, and is one node
      longer than its target's cost. */
  lemma {:induction false} PathShape(tunnels: seq<seq<nat>>, source: nat, view: map<nat, Bfs.Cell<nat>>, p: seq<nat>)
    requires EdgesInRange(tunnels) && UnitTree(tunnels, source, view) && Bfs.IsPath(view, p)
    ensures p[0] == source && Walk(tunnels, p) && |p| == view[p[|p| - 1]].cost + 1
    decreases |p|
  {
    if |p| == 1 {
      RootIsSource(tunnels, source, view, p[0]);
    } else {
      var init := p[..|p| - 1];
      assert Bfs.IsPath(view, init);
      PathShape(tunnels, source, view, init);
      var last := p[|p| - 1];
      assert view[last].parent == Some(p[|p| - 2]);
      assert last != source;
      assert TreeEdge(tunnels, view, last);
      assert forall i :: 0 <= i < |p| - 1 ==> p[i] == init[i];
    }
  }

  /** A tree path is one node longer than its target's cost. */
  lemma {:induction false} PathLength(tunnels: seq<seq<nat>>, source: nat, view: map<nat, Bfs.Cell<nat>>, p: seq<nat>)
    requires UnitTree(tunnels, source, view) && Bfs.IsPath(view, p)
    ensures |p| == view[p[|p| - 1]].cost + 1
    decreases |p|
  {
    if |p| == 1 {
      RootIsSource(tunnels, source, view, p[0]);
    } else {
      var init := p[..|p| - 1];
      assert Bfs.IsPath(view, init);
      PathLength(tunnels, source, view, init);
      var last := p[|p| - 1];
      assert view[last].parent == Some(p[|p| - 2]);
      assert last != source;
      assert TreeEdge(tunnels, view, last);
    }
  }

  /** Only the source has no parent. */
  lemma RootIsSource(tunnels: seq<seq<nat>>, source: nat, view: map<nat, Bfs.Cell<nat>>, k: nat)
    requires UnitTree(tunnels, source, view) && k in view && view[k].parent.None?
    ensures k == source
  {
  }

  /** Two tree paths to the same node are the same path. */
  lemma {:induction false} PathUnique(view: map<nat, Bfs.Cell<nat>>, p: seq<nat>, q: seq<nat>)
    requires Bfs.IsPath(view, p) && Bfs.IsPath(view, q) && p[|p| - 1] == q[|q| - 1]
    ensures p == q
    decreases |p|
  {
    var x := p[|p| - 1];
    ParentOfLast(view, p);
    ParentOfLast(view, q);
    if view[x].parent.Some? {
      var p', q' := p[..|p| - 1], q[..|q| - 1];
      assert Bfs.IsPath(view, p') && Bfs.IsPath(view, q');
      PathUnique(view, p', q');
      assert p == p' + [x] && q == q' + [x];
    }
  }

  /** The last node of a path has the node before it as parent, or no
      parent when it is the only node. */
  lemma ParentOfLast(view: map<nat, Bfs.Cell<nat>>, p: seq<nat>)
    requires Bfs.IsPath(view, p)
    ensures view[p[|p| - 1]].parent == if |p| > 1 then Some(p[|p| - 2]) else None
  {
    var i := |p| - 1;
    if i > 0 {
      assert view[p[i]].parent == Some(p[i - 1]);
    }
  }

  /** When the frontier runs dry the recorded routes are the table rows the
      search promises. */
  lemma Finish(tunnels: seq<seq<nat>>, source: nat, view: map<nat, Bfs.Cell<nat>>, d: int, routes: seq<seq<nat>>)
    requires Searching(tunnels, source, view, [], d, routes)
    ensures SourceRoutes(tunnels, source, routes)
  {
    assert Bfs.IsPath(view, [source]);
    PathUnique(view, routes[source], [source]);
    FinishWalks(tunnels, source, view, routes);
    FinishPrefixes(view, routes);
    FinishClosed(tunnels, source, view, routes);
  }

  lemma FinishWalks(tunnels: seq<seq<nat>>, source: nat, view: map<nat, Bfs.Cell<nat>>, routes: seq<seq<nat>>)
    requires EdgesInRange(tunnels) && UnitTree(tunnels, source, view) && Recorded(view, routes)
    ensures forall t :: 0 <= t < |routes| && routes[t] != [] ==>
      Walk(tunnels, routes[t]) && routes[t][0] == source && routes[t][|routes[t]| - 1] == t
  {
    forall t | 0 <= t < |routes| && routes[t] != []
      ensures Walk(tunnels, routes[t]) && routes[t][0] == source && routes[t][|routes[t]| - 1] == t
    {
      PathShape(tunnels, source, view, routes[t]);
    }
  }

  lemma FinishPrefixes(view: map<nat, Bfs.Cell<nat>>, routes: seq<seq<nat>>)
    requires Recorded(view, routes) && Pending(view, [], routes)
    ensures forall t, k :: 0 <= t < |routes| && 0 <= k < |routes[t]| ==> routes[routes[t][k]] == routes[t][..k + 1]
  {
    forall t, k | 0 <= t < |routes| && 0 <= k < |routes[t]|
      ensures routes[routes[t][k]] == routes[t][..k + 1]
    {
      var x := routes[t][k];
      assert Bfs.IsPath(view, routes[t]);
      var prefix := routes[t][..k + 1];
      assert Bfs.IsPath(view, prefix);
      PathUnique(view, routes[x], prefix);
    }
  }

  lemma FinishClosed(tunnels: seq<seq<nat>>, source: nat, view: map<nat, Bfs.Cell<nat>>, routes: seq<seq<nat>>)
    requires |routes| == |tunnels| && EdgesInRange(tunnels) && UnitTree(tunnels, source, view)
    requires Recorded(view, routes) && Pending(view, [], routes) && Closed(tunnels, view, routes, -1)
    ensures forall u, j :: 0 <= u < |routes| && routes[u] != [] && 0 <= j < |tunnels[u]| ==>
      routes[tunnels[u][j]] != [] && |routes[tunnels[u][j]]| <= |routes[u]| + 1
  {
    forall u, j | 0 <= u < |routes| && routes[u] != [] && 0 <= j < |tunnels[u]|
      ensures routes[tunnels[u][j]] != [] && |routes[tunnels[u][j]]| <= |routes[u]| + 1
    {
      var t := tunnels[u][j];
      assert u in view && ClosedUpTo(tunnels, view, u, |tunnels[u]|);
      assert t in view && view[t].cost <= view[u].cost + 1;
      assert routes[t] != [];
      var ru, rt := routes[u], routes[t];
      assert Bfs.IsPath(view, ru) && ru[|ru| - 1] == u;
      assert Bfs.IsPath(view, rt) && rt[|rt| - 1] == t;
      PathLength(tunnels, source, view, ru);
      PathLength(tunnels, source, view, rt);
    }
  }

  /** The nodes not reached yet, which bounds the search. */
  function Unreached(cells: seq<Option<Bfs.Cell<nat>>>): nat {
    if cells == [] then 0
    else Unreached(cells[..|cells| - 1]) + (if cells[|cells| - 1].None? then 1 else 0)
  }

  lemma {:induction false} UnreachedUpdate(cells: seq<Option<Bfs.Cell<nat>>>, k: nat, c: Bfs.Cell<nat>)
    requires k < |cells| && cells[k].None?
    ensures Unreached(cells[k := Some(c)]) + 1 == Unreached(cells)
    decreases |cells|
  {
    var cells' := cells[k := Some(c)];
    if k < |cells| - 1 {
      assert cells'[..|cells| - 1] == cells[..|cells| - 1][k := Some(c)];
      UnreachedUpdate(cells[..|cells| - 1], k, c);
    } else {
      assert cells'[..|cells| - 1] == cells[..|cells| - 1];
    }
  }

  /** The search from `source` in `Mapping::from`: each valve the frontier
      yields gets its tree path as its route, then its tunnels are followed
      with weight 1. */
  method RoutesFrom(tunnels: seq<seq<nat>>, source: nat) returns (routes: seq<seq<nat>>)
    requires EdgesInRange(tunnels) && source < |tunnels|
    ensures SourceRoutes(tunnels, source, routes)
  {
    var n := |tunnels|;
    var bfs := new Bfs.LinearBfs(n);
    routes := seq(n, _ => []);
    bfs.AddRoot(source, 0);
    ghost var d := 0;
    Start(tunnels, source);
    while true
      invariant bfs.Acyclic() && |bfs.cells| == n
      invariant Searching(tunnels, source, bfs.View(), bfs.consider, d, routes)
      decreases Unreached(bfs.cells), |bfs.consider|
    {
      ghost var view0, consider0 := bfs.View(), bfs.consider;
      var next := bfs.ConsiderNext();
      if next.None? {
        break;
      }
      var visited := next.value;
      var path := bfs.PathTo(visited);
      Visit(tunnels, source, view0, consider0, d, routes, path);
      routes := routes[visited := path];
      d := view0[visited].cost;
      FollowTunnels(bfs, tunnels, source, routes, visited, d);
    }
    Finish(tunnels, source, bfs.View(), d, routes);
  }

  /** The inner loop of the search: every tunnel out of `visited` is
      followed with weight 1. */
  method FollowTunnels(bfs: Bfs.LinearBfs, tunnels: seq<seq<nat>>, source: nat, routes: seq<seq<nat>>, visited: nat, ghost d: int)
    requires bfs.Acyclic() && |bfs.cells| == |tunnels|
    requires Expanding(tunnels, source, bfs.View(), bfs.consider, d, routes, visited, 0)
    modifies bfs
    ensures bfs.Acyclic() && |bfs.cells| == |tunnels|
    ensures Searching(tunnels, source, bfs.View(), bfs.consider, d, routes)
    ensures Unreached(bfs.cells) + |bfs.consider| == old(Unreached(bfs.cells) + |bfs.consider|)
    ensures Unreached(bfs.cells) <= old(Unreached(bfs.cells))
  {
    for j := 0 to |tunnels[visited]|
      invariant bfs.Acyclic() && |bfs.cells| == |tunnels|
      invariant Expanding(tunnels, source, bfs.View(), bfs.consider, d, routes, visited, j)
      invariant Unreached(bfs.cells) + |bfs.consider| == old(Unreached(bfs.cells) + |bfs.consider|)
      invariant Unreached(bfs.cells) <= old(Unreached(bfs.cells))
    {
      var key := tunnels[visited][j];
      ghost var view1 := bfs.View();
      ghost var cells1 := bfs.cells;
      ghost var consider1 := bfs.consider;
      Bfs.LayeredRelax(view1, consider1, d, visited, key);
      assert key in view1 <==> bfs.cells[key].Some?;
      var accepted := bfs.AddEdge(visited, key, 1);
      if accepted {
        UnreachedUpdate(cells1, key, Bfs.Cell(Some(visited), Bfs.Candidate(view1, visited, 1)));
        RelaxNew(tunnels, source, view1, consider1, d, routes, visited, j);
      } else {
        RelaxKnown(tunnels, source, view1, consider1, d, routes, visited, j);
      }
    }
    ExpandDone(tunnels, source, bfs.View(), bfs.consider, d, routes, visited);
  }

  lemma ExpandDone(tunnels: seq<seq<nat>>, source: nat, view: map<nat, Bfs.Cell<nat>>, consider: seq<nat>, d: int, routes: seq<seq<nat>>, v: nat)
    requires v < |tunnels| && Expanding(tunnels, source, view, consider, d, routes, v, |tunnels[v]|)
    ensures Searching(tunnels, source, view, consider, d, routes)
  {
  }

  /** Breadth-first routes are shortest: a walk from the source ends at a
      valve whose route is no longer than the walk. */
  lemma {:induction false} RoutesAreShortest(tunnels: seq<seq<nat>>, source: nat, routes: seq<seq<nat>>, w: seq<nat>)
    requires SourceRoutes(tunnels, source, routes) && Walk(tunnels, w) && w[0] == source
    ensures routes[w[|w| - 1]] != [] && |routes[w[|w| - 1]]| <= |w|
    decreases |w|
  {
    if |w| > 1 {
      var init := w[..|w| - 1];
      assert Walk(tunnels, init);
      RoutesAreShortest(tunnels, source, routes, init);
      var u, t := w[|w| - 2], w[|w| - 1];
      assert t in tunnels[u];
      var j :| 0 <= j < |tunnels[u]| && tunnels[u][j] == t;
      assert routes[tunnels[u][j]] != [];
    }
  }

  // ---------------------------------------------------------------------------
  // The mapping

  /** The valve numbering, the rates and the route table; `routes[s][t]`
      is what the source's flattened vector holds at `s * n + t`. */
  datatype Mapping = Mapping(
    idxToName: seq<string>,
    nameToIdx: map<string, nat>,
    relevantIndices: seq<nat>,
    rates: seq<nat>,
    routes: seq<seq<seq<nat>>>)

  /** A route starts where it is asked to, ends where it is asked to and
      stays among the valves. */
  ghost predicate RouteShape(routes: seq<seq<seq<nat>>>, s: nat, t: nat)
    requires s < |routes| && t < |routes[s]| && routes[s][t] != []
  {
    var r := routes[s][t];
    r[0] == s && r[|r| - 1] == t && forall i :: 0 <= i < |r| ==> r[i] < |routes|
  }

  /** Every row has one entry per valve. */
  ghost predicate Square(routes: seq<seq<seq<nat>>>) {
    forall s :: 0 <= s < |routes| ==> |routes[s]| == |routes|
  }

  /** What the route table guarantees, with the tunnels forgotten: it is
      square, the route from a valve to itself is that valve, and routes
      have their shape, are prefix-closed, bound the routes from the valves
      on them, and obey the triangle inequality.  Each property is wrapped
      in a predicate so that it is used only where it is named. */
  ghost predicate RouteTable(routes: seq<seq<seq<nat>>>) {
    && Square(routes)
    && (forall s :: 0 <= s < |routes| ==> routes[s][s] == [s])
    && (forall s: nat, t: nat :: ShapeAt(routes, s, t))
    && (forall s: nat, t: nat, k: nat :: PrefixAt(routes, s, t, k))
    && (forall s: nat, t: nat, k: nat :: RestAt(routes, s, t, k))
    && (forall a: nat, b: nat, c: nat :: Triangle(routes, a, b, c))
  }

  ghost predicate ShapeAt(routes: seq<seq<seq<nat>>>, s: nat, t: nat) {
    s < |routes| && t < |routes[s]| && routes[s][t] != [] ==> RouteShape(routes, s, t)
  }

  /** The first `k + 1` valves of a route are the route to its `k`th valve. */
  ghost predicate PrefixAt(routes: seq<seq<seq<nat>>>, s: nat, t: nat, k: nat) {
    s < |routes| && t < |routes[s]| && k < |routes[s][t]| ==>
      routes[s][t][k] < |routes[s]| && routes[s][routes[s][t][k]] == routes[s][t][..k + 1]
  }

  /** From the `k`th valve of a route, the route to the same target is no
      longer than the rest of the route. */
  ghost predicate RestAt(routes: seq<seq<seq<nat>>>, s: nat, t: nat, k: nat) {
    s < |routes| && t < |routes[s]| && k < |routes[s][t]| ==>
      RestBounds(routes, routes[s][t][k], t, |routes[s][t]| - k)
  }

  /** The route from `a` to `t` exists and has at most `len` valves. */
  ghost predicate RestBounds(routes: seq<seq<seq<nat>>>, a: nat, t: nat, len: int) {
    a < |routes| && t < |routes[a]| && routes[a][t] != [] && |routes[a][t]| <= len
  }

  ghost predicate Triangle(routes: seq<seq<seq<nat>>>, a: nat, b: nat, c: nat) {
    a < |routes| && b < |routes[a]| && b < |routes| && c < |routes[b]| && routes[a][b] != [] && routes[b][c] != [] ==>
      c < |routes[a]| && RestBounds(routes, a, c, |routes[a][b]| + |routes[b][c]| - 1)
  }

  /** The rows produced by one search per valve form a route table. */
  lemma TableFromSources(tunnels: seq<seq<nat>>, routes: seq<seq<seq<nat>>>)
    requires |routes| == |tunnels| && EdgesInRange(tunnels)
    requires forall s :: 0 <= s < |routes| ==> SourceRoutes(tunnels, s, routes[s])
    ensures RouteTable(routes)
  {
    forall s: nat, t: nat | s < |routes| && t < |routes[s]| && routes[s][t] != []
      ensures ShapeAt(routes, s, t)
    {
      assert SourceRoutes(tunnels, s, routes[s]);
    }
    forall s: nat, t: nat, k: nat | s < |routes| && t < |routes[s]| && k < |routes[s][t]|
      ensures PrefixAt(routes, s, t, k)
    {
      assert SourceRoutes(tunnels, s, routes[s]);
    }
    forall s: nat, t: nat, k: nat | s < |routes| && t < |routes[s]| && k < |routes[s][t]|
      ensures RestAt(routes, s, t, k)
    {
      RestIsShort(tunnels, routes, s, t, k);
    }
    forall a: nat, b: nat, c: nat | a < |routes| && b < |routes[a]| && b < |routes| && c < |routes[b]| && routes[a][b] != [] && routes[b][c] != []
      ensures Triangle(routes, a, b, c)
    {
      ConcatIsShort(tunnels, routes, a, b, c);
    }
  }

  lemma RestIsShort(tunnels: seq<seq<nat>>, routes: seq<seq<seq<nat>>>, s: nat, t: nat, k: nat)
    requires |routes| == |tunnels| && forall s :: 0 <= s < |routes| ==> SourceRoutes(tunnels, s, routes[s])
    requires s < |routes| && t < |routes[s]| && k < |routes[s][t]|
    ensures RestBounds(routes, routes[s][t][k], t, |routes[s][t]| - k)
  {
    var r := routes[s][t];
    assert SourceRoutes(tunnels, s, routes[s]);
    assert Walk(tunnels, r);
    var rest := r[k..];
    assert Walk(tunnels, rest);
    assert SourceRoutes(tunnels, r[k], routes[r[k]]);
    RoutesAreShortest(tunnels, r[k], routes[r[k]], rest);
  }

  lemma ConcatIsShort(tunnels: seq<seq<nat>>, routes: seq<seq<seq<nat>>>, a: nat, b: nat, c: nat)
    requires |routes| == |tunnels| && forall s :: 0 <= s < |routes| ==> SourceRoutes(tunnels, s, routes[s])
    requires a < |routes| && b < |routes[a]| && b < |routes| && c < |routes[b]|
    requires routes[a][b] != [] && routes[b][c] != []
    ensures c < |routes[a]| && RestBounds(routes, a, c, |routes[a][b]| + |routes[b][c]| - 1)
  {
    assert SourceRoutes(tunnels, a, routes[a]) && SourceRoutes(tunnels, b, routes[b]);
    var p, q := routes[a][b], routes[b][c];
    assert Walk(tunnels, p) && Walk(tunnels, q);
    var w := p + q[1..];
    forall i | 0 <= i < |w| - 1 ensures w[i + 1] in tunnels[w[i]] {
      if i < |p| - 1 {
        assert w[i] == p[i] && w[i + 1] == p[i + 1];
      } else {
        assert w[i] == q[i - |p| + 1] && w[i + 1] == q[i - |p| + 2];
      }
    }
    assert Walk(tunnels, w);
    RoutesAreShortest(tunnels, a, routes[a], w);
  }

  /** `Mapping::from` run on `valves`. */
  ghost predicate MappingOf(valves: seq<ValveDescription>, m: Mapping) {
    && TunnelsKnown(valves)
    && m.idxToName == Names(valves) && m.nameToIdx == NameIndex(valves)
    && m.relevantIndices == RelevantIndices(valves) && m.rates == Rates(valves)
    && |m.routes| == |valves|
    && forall s :: 0 <= s < |valves| ==> SourceRoutes(Tunnels(valves), s, m.routes[s])
  }

  /** `Mapping::from`: number the valves, collect the relevant ones and the
      rates, then search once from every valve. */
  method BuildMapping(valves: seq<ValveDescription>) returns (m: Mapping)
    requires TunnelsKnown(valves)
    ensures MappingOf(valves, m)
  {
    var idxToName, relevantIndices, nameToIdx, rates := [], [], map[], [];
    for i := 0 to |valves|
      invariant idxToName == Names(valves[..i]) && nameToIdx == NameIndex(valves[..i])
      invariant relevantIndices == RelevantIndices(valves[..i]) && rates == Rates(valves[..i])
    {
      assert valves[..i + 1][..i] == valves[..i];
      idxToName := idxToName + [valves[i].name];
      nameToIdx := nameToIdx[valves[i].name := i];
      if 0 < valves[i].rate {
        relevantIndices := relevantIndices + [i];
      }
      rates := rates + [valves[i].rate];
    }
    assert valves[..|valves|] == valves;
    var tunnels := Tunnels(valves);
    var routes := [];
    for s := 0 to |tunnels|
      invariant |routes| == s && forall s' :: 0 <= s' < s ==> SourceRoutes(tunnels, s', routes[s'])
    {
      var row := RoutesFrom(tunnels, s);
      routes := routes + [row];
    }
    m := Mapping(idxToName, nameToIdx, relevantIndices, rates, routes);
  }

  /** What the rest of the model relies on about a mapping. */
  ghost predicate ValidMapping(m: Mapping) {
    && RouteTable(m.routes)
    && |m.rates| == |m.routes| && |m.idxToName| == |m.routes|
    && Increasing(m.relevantIndices)
    && forall x :: x in m.relevantIndices ==> x < |m.routes|
  }

  lemma MappingIsValid(valves: seq<ValveDescription>, m: Mapping)
    requires MappingOf(valves, m)
    ensures ValidMapping(m)
    ensures forall k :: k in m.relevantIndices <==> 0 <= k < |valves| && 0 < valves[k].rate
  {
    TableFromSources(Tunnels(valves), m.routes);
    RelevantIndicesMeaning(valves);
  }

  function NumValves(m: Mapping): nat { |m.idxToName| }

  /** `route`: the row of the source valve, the entry of the target. */
  function RouteOf(m: Mapping, from: nat, to: nat): seq<nat>
    requires from < |m.routes| && to < |m.routes[from]|
  {
    m.routes[from][to]
  }

  /** `distance`: the number of tunnels on the route (the route must
      exist, or the subtraction underflows). */
  function Distance(m: Mapping, from: nat, to: nat): nat
    requires from < |m.routes| && to < |m.routes[from]| && RouteOf(m, from, to) != []
  {
    |RouteOf(m, from, to)| - 1
  }

  /** A valve is at distance 0 from itself, and distances obey the
      triangle inequality. */
  lemma DistanceFacts(m: Mapping, a: nat, b: nat, c: nat)
    requires ValidMapping(m) && a < |m.routes| && b < |m.routes| && c < |m.routes|
    ensures RouteOf(m, a, a) == [a] && Distance(m, a, a) == 0
    ensures RouteOf(m, a, b) != [] && RouteOf(m, b, c) != [] ==>
      RouteOf(m, a, c) != [] && Distance(m, a, c) <= Distance(m, a, b) + Distance(m, b, c)
  {
    assert Triangle(m.routes, a, b, c);
  }

  // ---------------------------------------------------------------------------
  // Routes being walked

  /** A participant either passes a valve on the way to its goal or opens
      a valve. */
  datatype Step = Pass(pos: nat, goal: nat) | Open(idx: nat)

  /** `Step::idx`: where the participant stands after the step. */
  function StepIdx(step: Step): nat {
    match step
    case Pass(pos, _) => pos
    case Open(idx) => idx
  }

  /** Where a participant stands: after its last step, or at the start. */
  function CurrentIdx(steps: seq<Step>, startFrom: nat): nat {
    if steps == [] then startFrom else StepIdx(steps[|steps| - 1])
  }

  /** The fields of a `Route` that change. */
  datatype RouteState = RouteState(steps: seq<seq<Step>>, time: int, combinedRate: int, totalReleased: int)

  /** The state `start_route` sets up. */
  function InitialState(numParticipants: nat): RouteState {
    RouteState(seq(numParticipants, _ => []), 0, 0, 0)
  }

  /** What `push_step` needs: one target per participant, at least one
      participant, and a route from where each one stands to its target. */
  ghost predicate PushAllowed(m: Mapping, start: nat, st: RouteState, indices: seq<nat>) {
    && Square(m.routes) && |m.rates| == |m.routes| && start < |m.routes|
    && |indices| == |st.steps| && |indices| > 0
    && (forall i :: 0 <= i < |st.steps| ==> CurrentIdx(st.steps[i], start) < |m.routes|)
    && forall i :: 0 <= i < |indices| ==>
         indices[i] < |m.routes| && RouteOf(m, CurrentIdx(st.steps[i], start), indices[i]) != []
  }

  /** How far each participant is from its target. */
  function Distances(m: Mapping, start: nat, st: RouteState, indices: seq<nat>): (ds: seq<nat>)
    requires PushAllowed(m, start, st, indices)
    ensures |ds| == |indices|
  {
    seq(|indices|, i requires 0 <= i < |indices| => Distance(m, CurrentIdx(st.steps[i], start), indices[i]))
  }

  function MinOf(s: seq<nat>): (r: nat)
    requires |s| > 0
    ensures r in s && forall i :: 0 <= i < |s| ==> r <= s[i]
  {
    if |s| == 1 then s[0]
    else
      var rest := MinOf(s[1..]);
      assert forall i :: 1 <= i < |s| ==> s[i] == s[1..][i - 1];
      if s[0] <= rest then s[0] else rest
  }

  /** `min_distance`: the distance of the participant closest to its target. */
  function MinDistance(m: Mapping, start: nat, st: RouteState, indices: seq<nat>): (r: nat)
    requires PushAllowed(m, start, st, indices)
    ensures forall i :: 0 <= i < |indices| ==> r <= Distance(m, CurrentIdx(st.steps[i], start), indices[i])
    ensures exists i :: 0 <= i < |indices| && r == Distance(m, CurrentIdx(st.steps[i], start), indices[i])
  {
    var ds := Distances(m, start, st, indices);
    assert forall i :: 0 <= i < |indices| ==> ds[i] == Distance(m, CurrentIdx(st.steps[i], start), indices[i]);
    MinOf(ds)
  }

  /** Participant `i` reaches its target within the step and opens it. */
  predicate Opens(m: Mapping, start: nat, st: RouteState, indices: seq<nat>, i: nat)
    requires PushAllowed(m, start, st, indices) && i < |indices|
  {
    Distance(m, CurrentIdx(st.steps[i], start), indices[i]) == MinDistance(m, start, st, indices)
  }

  /** The step a participant at `cur` heading for `idx` records. */
  function NewStep(m: Mapping, cur: nat, idx: nat, minDistance: nat): Step
    requires cur < |m.routes| && idx < |m.routes[cur]|
    requires RouteOf(m, cur, idx) != [] && minDistance <= Distance(m, cur, idx)
  {
    if Distance(m, cur, idx) == minDistance then Open(idx)
    else Pass(RouteOf(m, cur, idx)[minDistance + 1], idx)
  }

  /** The rate added by the first `k` participants. */
  function OpenedRate(m: Mapping, start: nat, st: RouteState, indices: seq<nat>, k: nat): int
    requires PushAllowed(m, start, st, indices) && k <= |indices|
  {
    if k == 0 then 0
    else OpenedRate(m, start, st, indices, k - 1) + (if Opens(m, start, st, indices, k - 1) then m.rates[indices[k - 1]] else 0)
  }

  /** The state after `push_step(indices)`. */
  function Pushed(m: Mapping, start: nat, st: RouteState, indices: seq<nat>): (r: RouteState)
    requires PushAllowed(m, start, st, indices)
    ensures |r.steps| == |st.steps|
  {
    var minDistance := MinDistance(m, start, st, indices);
    var duration := minDistance + 1;
    RouteState(
      seq(|st.steps|, i requires 0 <= i < |st.steps| =>
        st.steps[i] + [NewStep(m, CurrentIdx(st.steps[i], start), indices[i], minDistance)]),
      st.time + duration,
      st.combinedRate + OpenedRate(m, start, st, indices, |indices|),
      st.totalReleased + duration * st.combinedRate)
  }

  /** The last step of a participant can be undone: there is one, and a
      route from where the participant stood before it. */
  ghost predicate Removable(m: Mapping, start: nat, steps: seq<Step>) {
    && steps != []
    && CurrentIdx(steps[..|steps| - 1], start) < |m.routes|
    && StepIdx(steps[|steps| - 1]) < |m.routes|
    && |m.routes[CurrentIdx(steps[..|steps| - 1], start)]| == |m.routes|
    && RouteOf(m, CurrentIdx(steps[..|steps| - 1], start), StepIdx(steps[|steps| - 1])) != []
  }

  /** How long undoing a participant's last step says the step took. */
  function StepDuration(m: Mapping, start: nat, steps: seq<Step>): nat
    requires Removable(m, start, steps)
  {
    var removed := steps[|steps| - 1];
    var distance := Distance(m, CurrentIdx(steps[..|steps| - 1], start), StepIdx(removed));
    match removed
    case Pass(_, _) => distance
    case Open(_) => distance + 1
  }

  /** What `pop_step` needs: every participant has a step to undo, and the
      durations agree (its two assertions). */
  ghost predicate PopAllowed(m: Mapping, start: nat, st: RouteState) {
    && |m.rates| == |m.routes|
    && (forall i :: 0 <= i < |st.steps| ==> Removable(m, start, st.steps[i]))
    && forall i :: 0 < i < |st.steps| ==>
         StepDuration(m, start, st.steps[i - 1]) == 0
         || StepDuration(m, start, st.steps[i - 1]) == StepDuration(m, start, st.steps[i])
  }

  /** The rate given back by the first `k` participants' last steps. */
  function ClosedRate(m: Mapping, start: nat, st: RouteState, k: nat): int
    requires PopAllowed(m, start, st) && k <= |st.steps|
  {
    if k == 0 then 0
    else
      var last := st.steps[k - 1][|st.steps[k - 1]| - 1];
      ClosedRate(m, start, st, k - 1) + (if last.Open? then m.rates[last.idx] else 0)
  }

  /** The state after `pop_step`. */
  function Popped(m: Mapping, start: nat, st: RouteState): RouteState
    requires PopAllowed(m, start, st)
  {
    var duration := if st.steps == [] then 0 else StepDuration(m, start, st.steps[|st.steps| - 1]);
    var rate := st.combinedRate - ClosedRate(m, start, st, |st.steps|);
    RouteState(
      seq(|st.steps|, i requires 0 <= i < |st.steps| => st.steps[i][..|st.steps[i]| - 1]),
      st.time - duration,
      rate,
      st.totalReleased - duration * rate)
  }

  /** After a push each participant's new step can be undone, and undoing
      it reports the push's duration: an opening took the distance plus
      one minute, a pass stands exactly `duration` tunnels along the route. */
  lemma PushedParticipant(m: Mapping, start: nat, st: RouteState, indices: seq<nat>, i: nat)
    requires ValidMapping(m) && PushAllowed(m, start, st, indices) && i < |indices|
    ensures Removable(m, start, Pushed(m, start, st, indices).steps[i])
    ensures StepDuration(m, start, Pushed(m, start, st, indices).steps[i]) == MinDistance(m, start, st, indices) + 1
    ensures var after := Pushed(m, start, st, indices).steps[i];
      after[..|after| - 1] == st.steps[i] && (after[|after| - 1].Open? <==> Opens(m, start, st, indices, i))
    ensures var last := Pushed(m, start, st, indices).steps[i][|st.steps[i]|];
      last.Open? ==> last.idx == indices[i]
  {
    var minDistance := MinDistance(m, start, st, indices);
    var cur := CurrentIdx(st.steps[i], start);
    var step := NewStep(m, cur, indices[i], minDistance);
    var after := st.steps[i] + [step];
    assert Pushed(m, start, st, indices).steps[i] == after;
    assert after[..|after| - 1] == st.steps[i];
    assert Distances(m, start, st, indices)[i] == Distance(m, cur, indices[i]);
    if !step.Open? {
      var r := RouteOf(m, cur, indices[i]);
      assert PrefixAt(m.routes, cur, indices[i], minDistance + 1);
    }
  }

  lemma {:induction false} RatesMatch(m: Mapping, start: nat, st: RouteState, indices: seq<nat>, k: nat)
    requires ValidMapping(m) && PushAllowed(m, start, st, indices) && k <= |indices|
    requires PopAllowed(m, start, Pushed(m, start, st, indices))
    ensures ClosedRate(m, start, Pushed(m, start, st, indices), k) == OpenedRate(m, start, st, indices, k)
  {
    if k > 0 {
      RatesMatch(m, start, st, indices, k - 1);
      PushedParticipant(m, start, st, indices, k - 1);
    }
  }

  lemma PushedFields(m: Mapping, start: nat, st: RouteState, indices: seq<nat>)
    requires PushAllowed(m, start, st, indices)
    ensures var after := Pushed(m, start, st, indices);
      var duration := MinDistance(m, start, st, indices) + 1;
      && |after.steps| == |st.steps|
      && after.time == st.time + duration
      && after.combinedRate == st.combinedRate + OpenedRate(m, start, st, indices, |indices|)
      && after.totalReleased == st.totalReleased + duration * st.combinedRate
  {
  }

  lemma PoppedIs(m: Mapping, start: nat, st: RouteState, prev: RouteState, duration: nat)
    requires PopAllowed(m, start, st) && |st.steps| == |prev.steps| > 0
    requires forall i :: 0 <= i < |st.steps| ==> st.steps[i][..|st.steps[i]| - 1] == prev.steps[i]
    requires duration == StepDuration(m, start, st.steps[|st.steps| - 1])
    requires prev.combinedRate == st.combinedRate - ClosedRate(m, start, st, |st.steps|)
    requires prev.time == st.time - duration
    requires prev.totalReleased == st.totalReleased - duration * prev.combinedRate
    ensures Popped(m, start, st) == prev
  {
    assert Popped(m, start, st).steps == prev.steps;
  }

  /** `pop_step` right after `push_step` passes both of its assertions and
      restores the steps, the time, the combined rate and the total
      released. */
  lemma PopUndoesPush(m: Mapping, start: nat, st: RouteState, indices: seq<nat>)
    requires ValidMapping(m) && PushAllowed(m, start, st, indices)
    ensures PopAllowed(m, start, Pushed(m, start, st, indices))
    ensures Popped(m, start, Pushed(m, start, st, indices)) == st
  {
    var after := Pushed(m, start, st, indices);
    PushedPoppable(m, start, st, indices);
    RatesMatch(m, start, st, indices, |indices|);
    PushedFields(m, start, st, indices);
    PoppedIs(m, start, after, st, MinDistance(m, start, st, indices) + 1);
  }

  /** Every participant's step from a push can be undone, and each one
      reports the push's duration. */
  lemma PushedPoppable(m: Mapping, start: nat, st: RouteState, indices: seq<nat>)
    requires ValidMapping(m) && PushAllowed(m, start, st, indices)
    ensures var after := Pushed(m, start, st, indices);
      && PopAllowed(m, start, after)
      && forall i :: 0 <= i < |after.steps| ==>
           && StepDuration(m, start, after.steps[i]) == MinDistance(m, start, st, indices) + 1
           && after.steps[i][..|after.steps[i]| - 1] == st.steps[i]
  {
    var after := Pushed(m, start, st, indices);
    var duration := MinDistance(m, start, st, indices) + 1;
    forall i | 0 <= i < |after.steps|
      ensures Removable(m, start, after.steps[i])
      ensures StepDuration(m, start, after.steps[i]) == duration
      ensures after.steps[i][..|after.steps[i]| - 1] == st.steps[i]
    {
      PushedParticipant(m, start, st, indices, i);
    }
  }

  /** A participant that does not reach its target moves `duration`
      tunnels along its route and is exactly that much closer to it. */
  lemma PushMovesAlong(m: Mapping, start: nat, st: RouteState, indices: seq<nat>, i: nat)
    requires ValidMapping(m) && PushAllowed(m, start, st, indices) && i < |indices| && !Opens(m, start, st, indices, i)
    ensures var cur := CurrentIdx(st.steps[i], start);
      var last := Pushed(m, start, st, indices).steps[i][|st.steps[i]|];
      var duration := MinDistance(m, start, st, indices) + 1;
      && last.Pass? && last.goal == indices[i] && last.pos < |m.routes|
      && RouteOf(m, cur, last.pos) != [] && Distance(m, cur, last.pos) == duration
      && RouteOf(m, last.pos, last.goal) != []
      && Distance(m, last.pos, last.goal) == Distance(m, cur, last.goal) - duration
  {
    var cur := CurrentIdx(st.steps[i], start);
    var minDistance := MinDistance(m, start, st, indices);
    var duration := minDistance + 1;
    var r := RouteOf(m, cur, indices[i]);
    assert Distances(m, start, st, indices)[i] == Distance(m, cur, indices[i]);
    assert Pushed(m, start, st, indices).steps[i][|st.steps[i]|] == Pass(r[duration], indices[i]);
    assert ShapeAt(m.routes, cur, indices[i]);
    var pos := r[duration];
    assert PrefixAt(m.routes, cur, indices[i], duration);
    assert RestAt(m.routes, cur, indices[i], duration);
    assert Triangle(m.routes, cur, pos, indices[i]);
  }

  /** The pressure released by the time limit if nothing else is opened
      (`total_released_if_continued_until`). */
  function IfContinued(st: RouteState, timeLimit: int): int
    requires st.time <= timeLimit
  {
    st.totalReleased + (timeLimit - st.time) * st.combinedRate
  }

  // ---------------------------------------------------------------------------
  // Choosing what to open next

  /** The valve a step heads for. */
  function Target(step: Step): nat {
    match step
    case Pass(_, goal) => goal
    case Open(idx) => idx
  }

  function StepTargets(steps: seq<Step>): seq<nat> {
    seq(|steps|, k requires 0 <= k < |steps| => Target(steps[k]))
  }

  /** `already_open` before sorting: the target of every step of every
      participant, participant by participant. */
  function Targets(steps: seq<seq<Step>>): seq<nat> {
    if steps == [] then [] else Targets(steps[..|steps| - 1]) + StepTargets(steps[|steps| - 1])
  }

  /** A valve is among the targets exactly when some step heads for it. */
  lemma {:induction false} TargetsMeaning(steps: seq<seq<Step>>, x: nat)
    ensures x in Targets(steps) <==>
      exists i, k :: 0 <= i < |steps| && 0 <= k < |steps[i]| && Target(steps[i][k]) == x
  {
    if steps != [] {
      var init, last := steps[..|steps| - 1], steps[|steps| - 1];
      TargetsMeaning(init, x);
      if x in StepTargets(last) {
        var k :| 0 <= k < |last| && StepTargets(last)[k] == x;
        assert Target(steps[|steps| - 1][k]) == x;
      }
      if x in Targets(init) {
        var i, k :| 0 <= i < |init| && 0 <= k < |init[i]| && Target(init[i][k]) == x;
        assert steps[i] == init[i];
      }
      if exists i, k :: 0 <= i < |steps| && 0 <= k < |steps[i]| && Target(steps[i][k]) == x {
        var i, k :| 0 <= i < |steps| && 0 <= k < |steps[i]| && Target(steps[i][k]) == x;
        if i < |init| {
          assert steps[i] == init[i];
        } else {
          assert StepTargets(last)[k] == x;
        }
      }
    }
  }

  /** The relevant valves that are not in `open`, in their original order. */
  function Unopened(relevant: seq<nat>, open: seq<nat>): seq<nat> {
    if relevant == [] then []
    else
      var last := relevant[|relevant| - 1];
      Unopened(relevant[..|relevant| - 1], open) + if last in open then [] else [last]
  }

  /** `Unopened` keeps exactly the relevant valves not in `open`, and keeps
      them in increasing order. */
  lemma {:induction false} UnopenedMeaning(relevant: seq<nat>, open: seq<nat>)
    ensures forall x :: x in Unopened(relevant, open) <==> x in relevant && x !in open
    ensures Increasing(relevant) ==> Increasing(Unopened(relevant, open))
  {
    if relevant != [] {
      var init, last := relevant[..|relevant| - 1], relevant[|relevant| - 1];
      UnopenedMeaning(init, open);
      var r0, r := Unopened(init, open), Unopened(relevant, open);
      assert forall x :: x in relevant <==> x in init || x == last;
      if Increasing(relevant) {
        assert forall x :: x in init ==> x < last;
        forall i, j | 0 <= i < j < |r| ensures r[i] < r[j] {
          if j < |r0| {
            assert r[i] == r0[i] && r[j] == r0[j];
          } else {
            assert r[i] == r0[i] && r0[i] in r0;
          }
        }
      }
    }
  }

  /** Only which valves are open matters, not their order or repetition. */
  lemma {:induction false} UnopenedSameMembers(relevant: seq<nat>, a: seq<nat>, b: seq<nat>)
    requires forall x :: x in a <==> x in b
    ensures Unopened(relevant, a) == Unopened(relevant, b)
  {
    if relevant != [] {
      UnopenedSameMembers(relevant[..|relevant| - 1], a, b);
    }
  }

  /** `left_to_open`: one pass over the relevant valves with a peeking
      cursor into the sorted list of targets; the cursor skips the targets
      not above the current valve and drops the valve when it meets it. */
  method LeftToOpen(relevant: seq<nat>, alreadyOpen: seq<nat>) returns (left: seq<nat>)
    requires Increasing(relevant)
    requires forall i, j :: 0 <= i < j < |alreadyOpen| ==> alreadyOpen[i] <= alreadyOpen[j]
    ensures left == Unopened(relevant, alreadyOpen)
  {
    left := [];
    var cursor := 0;
    for r := 0 to |relevant|
      invariant cursor <= |alreadyOpen|
      invariant left == Unopened(relevant[..r], alreadyOpen)
      invariant forall k :: 0 <= k < cursor ==> 0 < r && alreadyOpen[k] <= relevant[r - 1]
    {
      var idx := relevant[r];
      assert forall k :: 0 <= k < cursor ==> alreadyOpen[k] < idx;
      var found := false;
      while !found && cursor < |alreadyOpen| && alreadyOpen[cursor] <= idx
        invariant cursor <= |alreadyOpen|
        invariant forall k :: 0 <= k < cursor ==> alreadyOpen[k] <= idx
        invariant found <==> idx in alreadyOpen[..cursor]
        decreases |alreadyOpen| - cursor
      {
        assert alreadyOpen[..cursor + 1] == alreadyOpen[..cursor] + [alreadyOpen[cursor]];
        found := alreadyOpen[cursor] == idx;
        cursor := cursor + 1;
      }
      if found {
        assert idx in alreadyOpen;
      } else {
        assert alreadyOpen == alreadyOpen[..cursor] + alreadyOpen[cursor..];
        assert idx !in alreadyOpen[cursor..];
        left := left + [idx];
      }
      assert relevant[..r + 1][..r] == relevant[..r];
    }
    assert relevant[..|relevant|] == relevant;
  }

  /** `xs` without its element at `i`. */
  function Remove(xs: seq<nat>, i: nat): (r: seq<nat>)
    requires i < |xs|
    ensures |r| == |xs| - 1
  {
    xs[..i] + xs[i + 1..]
  }

  function Prepend(x: nat, tails: seq<seq<nat>>): seq<seq<nat>> {
    seq(|tails|, j requires 0 <= j < |tails| => [x] + tails[j])
  }

  /** The `k`-element arrangements of `xs`, in the order the `permutations`
      adaptor yields them: by the position of the first element, then
      recursively by the rest.  Each is `k` long and is drawn from `xs`. */
  function Arrangements(xs: seq<nat>, k: nat): seq<seq<nat>>
    decreases k, |xs| + 1
  {
    if k == 0 then [[]] else ArrangementsFrom(xs, k, 0)
  }

  /** The arrangements whose first element sits at position `i` or later. */
  function ArrangementsFrom(xs: seq<nat>, k: nat, i: nat): seq<seq<nat>>
    requires 0 < k && i <= |xs|
    decreases k, |xs| - i
  {
    if i == |xs| then []
    else Prepend(xs[i], Arrangements(Remove(xs, i), k - 1)) + ArrangementsFrom(xs, k, i + 1)
  }

  /** Every arrangement has `k` elements, all drawn from `xs`. */
  lemma {:induction false} ArrangementsSound(xs: seq<nat>, k: nat)
    ensures forall j :: 0 <= j < |Arrangements(xs, k)| ==>
      |Arrangements(xs, k)[j]| == k && forall x :: x in Arrangements(xs, k)[j] ==> x in xs
    decreases k, |xs| + 1
  {
    if k > 0 {
      ArrangementsFromSound(xs, k, 0);
    }
  }

  lemma {:induction false} ArrangementsFromSound(xs: seq<nat>, k: nat, i: nat)
    requires 0 < k && i <= |xs|
    ensures forall j :: 0 <= j < |ArrangementsFrom(xs, k, i)| ==>
      |ArrangementsFrom(xs, k, i)[j]| == k && forall x :: x in ArrangementsFrom(xs, k, i)[j] ==> x in xs
    decreases k, |xs| - i
  {
    if i < |xs| {
      var rest := Remove(xs, i);
      assert forall x :: x in rest ==> x in xs;
      ArrangementsSound(rest, k - 1);
      ArrangementsFromSound(xs, k, i + 1);
      var tails := Arrangements(rest, k - 1);
      var here := Prepend(xs[i], tails);
      assert forall j :: 0 <= j < |here| ==> here[j] == [xs[i]] + tails[j];
      var r := here + ArrangementsFrom(xs, k, i + 1);
      assert forall j :: 0 <= j < |r| ==> r[j] == if j < |here| then here[j] else ArrangementsFrom(xs, k, i + 1)[j - |here|];
    }
  }

  /** The participant is walking towards a goal. */
  predicate Passing(steps: seq<Step>) {
    steps != [] && steps[|steps| - 1].Pass?
  }

  /** `indices_for_new_steps`: the participants free to pick a new target,
      those that have just opened a valve or have not moved yet. */
  function FreeSlots(steps: seq<seq<Step>>): (r: seq<nat>)
    ensures Increasing(r)
    ensures forall k :: 0 <= k < |r| ==> r[k] < |steps|
    ensures forall i :: 0 <= i < |steps| ==> (i in r <==> !Passing(steps[i]))
  {
    if steps == [] then []
    else
      var init := steps[..|steps| - 1];
      var r0 := FreeSlots(init);
      assert forall i :: 0 <= i < |init| ==> init[i] == steps[i];
      r0 + if Passing(steps[|steps| - 1]) then [] else [|steps| - 1]
  }

  /** `new_steps_buffer` as first built: a walking participant keeps its
      goal, a free one gets a placeholder. */
  function NewStepsBuffer(steps: seq<seq<Step>>): (b: seq<nat>)
    ensures |b| == |steps|
  {
    seq(|steps|, i requires 0 <= i < |steps| => if Passing(steps[i]) then steps[i][|steps[i]| - 1].goal else 0)
  }

  /** Writing `values` into `buffer` at `slots`, one slot after the other.
      Outside the slots the buffer is untouched, and with distinct slots
      each slot ends up holding its value. */
  function Fill(buffer: seq<nat>, slots: seq<nat>, values: seq<nat>): (r: seq<nat>)
    requires |values| == |slots| && forall k :: 0 <= k < |slots| ==> slots[k] < |buffer|
    ensures |r| == |buffer|
    ensures forall i :: 0 <= i < |buffer| && i !in slots ==> r[i] == buffer[i]
    ensures Increasing(slots) ==> forall k :: 0 <= k < |slots| ==> r[slots[k]] == values[k]
  {
    if slots == [] then buffer
    else
      var n := |slots| - 1;
      var r0 := Fill(buffer, slots[..n], values[..n]);
      assert forall i :: i in slots[..n] ==> i in slots;
      assert forall k :: 0 <= k < n ==> slots[..n][k] == slots[k] && values[..n][k] == values[k];
      r0[slots[n] := values[n]]
  }

  /** Filling distinct slots overwrites everything that differs between
      two buffers, so a reused buffer gives the same result as a new one. */
  lemma FillSame(a: seq<nat>, b: seq<nat>, slots: seq<nat>, values: seq<nat>)
    requires |a| == |b| && |values| == |slots| && Increasing(slots)
    requires forall k :: 0 <= k < |slots| ==> slots[k] < |a|
    requires forall i :: 0 <= i < |a| && i !in slots ==> a[i] == b[i]
    ensures Fill(a, slots, values) == Fill(b, slots, values)
  {
    forall i | 0 <= i < |a| ensures Fill(a, slots, values)[i] == Fill(b, slots, values)[i] {
      if i in slots {
        var k :| 0 <= k < |slots| && slots[k] == i;
      }
    }
  }

  /** The loop that writes a candidate into `new_steps_buffer`. */
  method FillSlots(buffer: seq<nat>, slots: seq<nat>, values: seq<nat>) returns (filled: seq<nat>)
    requires |values| == |slots| && forall k :: 0 <= k < |slots| ==> slots[k] < |buffer|
    ensures filled == Fill(buffer, slots, values)
  {
    filled := buffer;
    for k := 0 to |slots|
      invariant filled == Fill(buffer, slots[..k], values[..k])
    {
      assert slots[..k + 1][..k] == slots[..k] && values[..k + 1][..k] == values[..k];
      filled := filled[slots[k] := values[k]];
    }
    assert slots[..|slots|] == slots && values[..|slots|] == values;
  }

  /** The tuples of new targets the search tries from `st`. */
  function Candidates(m: Mapping, st: RouteState): seq<seq<nat>> {
    Arrangements(Unopened(m.relevantIndices, Targets(st.steps)), |FreeSlots(st.steps)|)
  }

  /** The targets pushed for a candidate: the free participants get the
      candidate's valves, the walking ones keep their goals. */
  function CandidateBuffer(st: RouteState, values: seq<nat>): seq<nat>
    requires |values| == |FreeSlots(st.steps)|
  {
    Fill(NewStepsBuffer(st.steps), FreeSlots(st.steps), values)
  }

  /** A participant's last step heads for a relevant valve, and a walking
      participant has a route to its goal. */
  ghost predicate ParticipantOk(m: Mapping, steps: seq<Step>) {
    steps != [] ==>
      match steps[|steps| - 1]
      case Open(idx) => idx in m.relevantIndices
      case Pass(pos, goal) =>
        pos < |m.routes| && goal in m.relevantIndices && goal < |m.routes[pos]| && RouteOf(m, pos, goal) != []
  }

  /** Every relevant valve can be reached from the start and from every
      other relevant valve. */
  ghost predicate Reach(m: Mapping, start: nat) {
    forall a: nat, r: nat :: Reaches(m, start, a, r)
  }

  ghost predicate Reaches(m: Mapping, start: nat, a: nat, r: nat) {
    a < |m.routes| && (a == start || a in m.relevantIndices) && r in m.relevantIndices && r < |m.routes[a]| ==>
      RouteOf(m, a, r) != []
  }

  /** What holds of every route the search visits. */
  ghost predicate RouteInv(m: Mapping, start: nat, st: RouteState) {
    && ValidMapping(m) && start < |m.routes| && Reach(m, start) && |st.steps| > 0
    && forall i :: 0 <= i < |st.steps| ==> ParticipantOk(m, st.steps[i])
  }

  /** Pushing a candidate is allowed, and every target it pushes is a
      relevant valve. */
  lemma CandidateAllowed(m: Mapping, start: nat, st: RouteState, values: seq<nat>)
    requires RouteInv(m, start, st) && |values| == |FreeSlots(st.steps)|
    requires forall k :: 0 <= k < |values| ==> values[k] in m.relevantIndices
    ensures PushAllowed(m, start, st, CandidateBuffer(st, values))
    ensures forall i :: 0 <= i < |st.steps| ==> CandidateBuffer(st, values)[i] in m.relevantIndices
  {
    var b, slots := CandidateBuffer(st, values), FreeSlots(st.steps);
    forall i | 0 <= i < |st.steps|
      ensures b[i] in m.relevantIndices && CurrentIdx(st.steps[i], start) < |m.routes|
      ensures b[i] < |m.routes| && RouteOf(m, CurrentIdx(st.steps[i], start), b[i]) != []
    {
      var cur := CurrentIdx(st.steps[i], start);
      assert ParticipantOk(m, st.steps[i]);
      if i in slots {
        var k :| 0 <= k < |slots| && slots[k] == i;
        assert b[i] == values[k];
        assert Reaches(m, start, cur, b[i]);
      }
    }
  }

  /** A push of relevant targets keeps the invariant. */
  lemma PushedKeepsInv(m: Mapping, start: nat, st: RouteState, indices: seq<nat>)
    requires RouteInv(m, start, st) && PushAllowed(m, start, st, indices)
    requires forall i :: 0 <= i < |indices| ==> indices[i] in m.relevantIndices
    ensures RouteInv(m, start, Pushed(m, start, st, indices))
  {
    var after := Pushed(m, start, st, indices);
    forall i | 0 <= i < |after.steps| ensures ParticipantOk(m, after.steps[i]) {
      PushedParticipant(m, start, st, indices, i);
      if !Opens(m, start, st, indices, i) {
        PushMovesAlong(m, start, st, indices, i);
      }
    }
  }

  /** Every candidate gives each free participant a relevant valve. */
  ghost predicate CandidatesOk(m: Mapping, st: RouteState, cands: seq<seq<nat>>) {
    forall j :: 0 <= j < |cands| ==>
      |cands[j]| == |FreeSlots(st.steps)| && forall k :: 0 <= k < |cands[j]| ==> cands[j][k] in m.relevantIndices
  }

  lemma CandidatesAreOk(m: Mapping, st: RouteState)
    ensures CandidatesOk(m, st, Candidates(m, st))
  {
    var left := Unopened(m.relevantIndices, Targets(st.steps));
    ArrangementsSound(left, |FreeSlots(st.steps)|);
    UnopenedMeaning(m.relevantIndices, Targets(st.steps));
    var cands := Candidates(m, st);
    forall j, k | 0 <= j < |cands| && 0 <= k < |cands[j]| ensures cands[j][k] in m.relevantIndices {
      assert cands[j][k] in cands[j];
    }
  }

  /** The route after pushing the targets `values` gives the free
      participants: it still satisfies the invariant, and time has passed. */
  function Next(m: Mapping, start: nat, st: RouteState, values: seq<nat>): (next: RouteState)
    requires RouteInv(m, start, st) && |values| == |FreeSlots(st.steps)|
    requires forall k :: 0 <= k < |values| ==> values[k] in m.relevantIndices
    ensures RouteInv(m, start, next) && next.time > st.time
  {
    CandidateAllowed(m, start, st, values);
    PushedKeepsInv(m, start, st, CandidateBuffer(st, values));
    PushedFields(m, start, st, CandidateBuffer(st, values));
    Pushed(m, start, st, CandidateBuffer(st, values))
  }

  /** What `find_best_under_time_limit` returns: at least the pressure
      released by standing still (see `BestFromCovers` for the candidates). */
  function BestFrom(m: Mapping, start: nat, st: RouteState, timeLimit: int): (r: int)
    requires RouteInv(m, start, st) && st.time <= timeLimit
    ensures r >= IfContinued(st, timeLimit)
    decreases timeLimit - st.time, 2
  {
    MaxOf(IfContinued(st, timeLimit), Subs(m, start, st, timeLimit))
  }

  /** The contribution of each candidate step from `st`, in candidate order. */
  function Subs(m: Mapping, start: nat, st: RouteState, timeLimit: int): (r: seq<int>)
    requires RouteInv(m, start, st) && st.time <= timeLimit
    ensures |r| == |Candidates(m, st)|
    decreases timeLimit - st.time, 1
  {
    CandidatesAreOk(m, st);
    var cands := Candidates(m, st);
    seq(|cands|, j requires 0 <= j < |cands| => SubBest(m, start, st, timeLimit, cands[j]))
  }

  /** One candidate: the best of the search after it when it ends before the
      time limit, and otherwise nothing beyond standing still. */
  function SubBest(m: Mapping, start: nat, st: RouteState, timeLimit: int, values: seq<nat>): int
    requires RouteInv(m, start, st) && st.time <= timeLimit && |values| == |FreeSlots(st.steps)|
    requires forall k :: 0 <= k < |values| ==> values[k] in m.relevantIndices
    decreases timeLimit - st.time, 0
  {
    var next := Next(m, start, st, values);
    if next.time < timeLimit then BestFrom(m, start, next, timeLimit) else IfContinued(st, timeLimit)
  }

  /** `best.max(..)` folded over `subs`, starting from `base`. */
  function MaxOf(base: int, subs: seq<int>): (r: int)
    ensures r >= base && (r == base || r in subs)
  {
    if |subs| == 0 then base
    else
      var best := MaxOf(base, subs[..|subs| - 1]);
      if subs[|subs| - 1] > best then subs[|subs| - 1] else best
  }

  lemma {:induction false} MaxOfCovers(base: int, subs: seq<int>, j: nat)
    requires j < |subs|
    ensures MaxOf(base, subs) >= subs[j]
  {
    if j < |subs| - 1 {
      MaxOfCovers(base, subs[..|subs| - 1], j);
    }
  }

  /** One more turn of the candidate loop extends the fold by one
      contribution. */
  lemma MaxOfSnoc(base: int, subs: seq<int>, c: nat, sofar: int, best: int)
    requires c < |subs| && sofar == MaxOf(base, subs[..c])
    requires best == if subs[c] > sofar then subs[c] else sofar
    ensures best == MaxOf(base, subs[..c + 1])
  {
    assert subs[..c + 1][..c] == subs[..c];
  }

  /** The search from `st` is at least as good as every candidate's
      contribution. */
  lemma BestFromCovers(m: Mapping, start: nat, st: RouteState, timeLimit: int, j: nat)
    requires RouteInv(m, start, st) && st.time <= timeLimit && j < |Subs(m, start, st, timeLimit)|
    ensures BestFrom(m, start, st, timeLimit) >= Subs(m, start, st, timeLimit)[j]
  {
    MaxOfCovers(IfContinued(st, timeLimit), Subs(m, start, st, timeLimit), j);
  }

  /** A candidate that ends before the time limit contributes the search
      from the route after it. */
  lemma SubsMeaning(m: Mapping, start: nat, st: RouteState, timeLimit: int, j: nat)
    requires RouteInv(m, start, st) && st.time <= timeLimit && j < |Candidates(m, st)|
    ensures CandidatesOk(m, st, Candidates(m, st))
    ensures var next := Next(m, start, st, Candidates(m, st)[j]);
      Subs(m, start, st, timeLimit)[j] ==
        if next.time < timeLimit then BestFrom(m, start, next, timeLimit) else IfContinued(st, timeLimit)
  {
    CandidatesAreOk(m, st);
  }

  class Route {
    const mapping: Mapping
    const startFrom: nat
    var steps: seq<seq<Step>>
    var time: int
    var combinedRate: int
    var totalReleased: int

    function State(): RouteState
      reads this
    {
      RouteState(steps, time, combinedRate, totalReleased)
    }

    /** `start_route`: every participant at `startFrom`, nothing open. */
    constructor (mapping: Mapping, startFrom: nat, numParticipants: nat)
      ensures this.mapping == mapping && this.startFrom == startFrom
      ensures State() == InitialState(numParticipants)
    {
      this.mapping := mapping;
      this.startFrom := startFrom;
      steps := seq(numParticipants, _ => []);
      time, combinedRate, totalReleased := 0, 0, 0;
    }

    /** `push_step`: advance the time to when the closest participant opens
      its target; the others walk that long along their routes. */
    method PushStep(indices: seq<nat>)
      requires PushAllowed(mapping, startFrom, State(), indices)
      modifies this
      ensures State() == Pushed(mapping, startFrom, old(State()), indices)
    {
      ghost var st := State();
      var minDistance := MinDistance(mapping, startFrom, State(), indices);
      var actionDuration := minDistance + 1;
      ghost var target := Pushed(mapping, startFrom, st, indices);
      PushedFields(mapping, startFrom, st, indices);
      Advance(actionDuration);
      for i := 0 to |indices|
        invariant |steps| == |st.steps| && time == target.time && totalReleased == target.totalReleased
        invariant combinedRate == st.combinedRate + OpenedRate(mapping, startFrom, st, indices, i)
        invariant forall j :: 0 <= j < i ==> steps[j] == target.steps[j]
        invariant forall j :: i <= j < |steps| ==> steps[j] == st.steps[j]
      {
        PushParticipant(st, indices, i, minDistance);
      }
      assert steps == target.steps;
    }

    /** The clock part of `push_step`: time moves on by `duration` and the
      open valves release `duration` times the combined rate. */
    method Advance(duration: nat)
      modifies this
      ensures time == old(time) + duration && totalReleased == old(totalReleased) + duration * combinedRate
      ensures steps == old(steps) && combinedRate == old(combinedRate)
    {
      time := time + duration;
      totalReleased := totalReleased + duration * combinedRate;
    }

    /** One turn of `push_step`'s loop: participant `i` opens its target
      if it is the closest, and otherwise walks `minDistance + 1` tunnels
      along its route. */
    method PushParticipant(ghost st: RouteState, indices: seq<nat>, i: nat, minDistance: nat)
      requires PushAllowed(mapping, startFrom, st, indices) && i < |indices|
      requires minDistance == MinDistance(mapping, startFrom, st, indices)
      requires |steps| == |st.steps| && steps[i] == st.steps[i]
      modifies this
      ensures steps == old(steps)[i := Pushed(mapping, startFrom, st, indices).steps[i]]
      ensures combinedRate == old(combinedRate)
        + (if Opens(mapping, startFrom, st, indices, i) then mapping.rates[indices[i]] else 0)
      ensures time == old(time) && totalReleased == old(totalReleased)
    {
      var currIdx := CurrentIdx(steps[i], startFrom);
      var distance := Distance(mapping, currIdx, indices[i]);
      assert Distances(mapping, startFrom, st, indices)[i] == distance;
      var newStep;
      if distance == minDistance {
        combinedRate := combinedRate + mapping.rates[indices[i]];
        newStep := Open(indices[i]);
      } else {
        var route := RouteOf(mapping, currIdx, indices[i]);
        newStep := Pass(route[minDistance + 1], indices[i]);
      }
      steps := steps[i := steps[i] + [newStep]];
    }

    /** `pop_step`: undo every participant's last step, taking back the
      rates of the valves it opened and the pressure released meanwhile. */
    method PopStep()
      requires PopAllowed(mapping, startFrom, State())
      modifies this
      ensures State() == Popped(mapping, startFrom, old(State()))
    {
      ghost var st := State();
      ghost var target := Popped(mapping, startFrom, st);
      var actionDuration := 0;
      for i := 0 to |steps|
        invariant |steps| == |st.steps| && time == st.time && totalReleased == st.totalReleased
        invariant actionDuration == if i == 0 then 0 else StepDuration(mapping, startFrom, st.steps[i - 1])
        invariant combinedRate == st.combinedRate - ClosedRate(mapping, startFrom, st, i)
        invariant forall j :: 0 <= j < i ==> steps[j] == target.steps[j]
        invariant forall j :: i <= j < |steps| ==> steps[j] == st.steps[j]
      {
        actionDuration := PopParticipant(st, i, actionDuration);
      }
      assert steps == target.steps;
      time := time - actionDuration;
      totalReleased := totalReleased - actionDuration * combinedRate;
    }

    /** The body of the `pop_step` loop for participant `i`: drop its last
      step, check its duration against the previous participant's, and give
      back the rate of a valve it had opened. */
    method PopParticipant(ghost st: RouteState, i: nat, actionDuration: nat) returns (duration: nat)
      requires PopAllowed(mapping, startFrom, st) && i < |st.steps|
      requires |steps| == |st.steps| && steps[i] == st.steps[i]
      requires actionDuration == if i == 0 then 0 else StepDuration(mapping, startFrom, st.steps[i - 1])
      modifies this
      ensures steps == old(steps)[i := st.steps[i][..|st.steps[i]| - 1]]
      ensures duration == StepDuration(mapping, startFrom, st.steps[i])
      ensures var last := st.steps[i][|st.steps[i]| - 1];
        combinedRate == old(combinedRate) - if last.Open? then mapping.rates[last.idx] else 0
      ensures time == old(time) && totalReleased == old(totalReleased)
    {
      var removedStep := steps[i][|steps[i]| - 1];
      steps := steps[i := steps[i][..|steps[i]| - 1]];
      var prevIdx := CurrentIdx(steps[i], startFrom);
      var distance := Distance(mapping, prevIdx, StepIdx(removedStep));
      match removedStep {
        case Pass(_, _) =>
          assert actionDuration == 0 || actionDuration == distance;
          duration := distance;
        case Open(removedIdx) =>
          assert actionDuration == 0 || actionDuration == distance + 1;
          duration := distance + 1;
          combinedRate := combinedRate - mapping.rates[removedIdx];
      }
    }

    /** `find_best_under_time_limit`: try every candidate tuple of new
      targets, search on from each one that ends before the limit, and
      undo it again; the route is left as it was found. */
    method FindBest(timeLimit: int) returns (best: int)
      requires RouteInv(mapping, startFrom, State()) && time <= timeLimit
      modifies this
      decreases timeLimit - time, 1
      ensures State() == old(State())
      ensures best == BestFrom(mapping, startFrom, old(State()), timeLimit)
    {
      ghost var st := State();
      best := TotalReleasedIfContinuedUntil(timeLimit);
      var leftToOpen := LeftToOpenNow();
      var slots := FreeSlots(steps);
      var base := NewStepsBuffer(steps);
      var buffer := base;
      var candidates := Arrangements(leftToOpen, |slots|);
      assert candidates == Candidates(mapping, st);
      CandidatesAreOk(mapping, st);
      ghost var subs := Subs(mapping, startFrom, st, timeLimit);
      for c := 0 to |candidates|
        invariant State() == st
        invariant |buffer| == |base|
        invariant forall i :: 0 <= i < |base| && i !in slots ==> buffer[i] == base[i]
        invariant best == MaxOf(IfContinued(st, timeLimit), subs[..c])
      {
        var tryIndices := candidates[c];
        ghost var previous := buffer;
        buffer := FillSlots(buffer, slots, tryIndices);
        FillSame(previous, base, slots, tryIndices);
        SubsMeaning(mapping, startFrom, st, timeLimit, c);
        ghost var sofar := best;
        best := TryCandidate(timeLimit, st, tryIndices, buffer, best);
        MaxOfSnoc(IfContinued(st, timeLimit), subs, c, sofar, best);
      }
      assert subs[..|candidates|] == subs;
    }

    /** `left_to_open` for the current steps: sort the targets of all steps,
      then drop them from the relevant valves. */
    method LeftToOpenNow() returns (leftToOpen: seq<nat>)
      requires ValidMapping(mapping)
      ensures leftToOpen == Unopened(mapping.relevantIndices, Targets(steps))
    {
      var alreadyOpen := SortBy(Targets(steps), (x: nat) => x as int);
      assert forall i, j :: 0 <= i < j < |alreadyOpen| ==> alreadyOpen[i] <= alreadyOpen[j] by {
        assert SortedBy(alreadyOpen, (x: nat) => x as int);
      }
      leftToOpen := LeftToOpen(mapping.relevantIndices, alreadyOpen);
      assert forall x :: x in alreadyOpen <==> x in Targets(steps) by {
        assert multiset(alreadyOpen) == multiset(Targets(steps));
        forall x ensures x in alreadyOpen <==> x in Targets(steps) {
          assert x in alreadyOpen <==> x in multiset(alreadyOpen);
          assert x in Targets(steps) <==> x in multiset(Targets(steps));
        }
      }
      UnopenedSameMembers(mapping.relevantIndices, alreadyOpen, Targets(steps));
    }

    /** One turn of the candidate loop: push the filled buffer, search on if
      time is left, keep the larger result, and pop the step again. */
    method TryCandidate(timeLimit: int, ghost st: RouteState, values: seq<nat>, buffer: seq<nat>, best: int)
      returns (best': int)
      requires State() == st && RouteInv(mapping, startFrom, st) && st.time <= timeLimit
      requires |values| == |FreeSlots(st.steps)| && forall k :: 0 <= k < |values| ==> values[k] in mapping.relevantIndices
      requires buffer == CandidateBuffer(st, values)
      modifies this
      decreases timeLimit - time, 0
      ensures State() == st
      ensures var next := Next(mapping, startFrom, st, values);
        best' == if next.time < timeLimit then (var sub := BestFrom(mapping, startFrom, next, timeLimit); if sub > best then sub else best) else best
    {
      CandidateAllowed(mapping, startFrom, st, values);
      ghost var next := Next(mapping, startFrom, st, values);
      PushStep(buffer);
      best' := best;
      if time < timeLimit {
        var sub := FindBest(timeLimit);
        if sub > best' {
          best' := sub;
        }
      }
      PopUndoesPush(mapping, startFrom, st, buffer);
      PopStep();
    }

    /** `total_released_if_continued_until`. */
    function TotalReleasedIfContinuedUntil(timeLimit: int): int
      reads this
      requires time <= timeLimit
    {
      IfContinued(State(), timeLimit)
    }
  }

  // ---------------------------------------------------------------------------
  // The two parts

  /** Valve `r` can be reached from valve `a` through the tunnels. */
  ghost predicate Connected(valves: seq<ValveDescription>, a: nat, r: nat)
    requires TunnelsKnown(valves)
  {
    exists w :: Walk(Tunnels(valves), w) && w[0] == a && w[|w| - 1] == r
  }

  /** What the search relies on: the tunnels name known valves, there is a
      valve `AA`, and every valve with a positive rate can be reached from
      `AA` and from every other such valve. */
  ghost predicate Solvable(valves: seq<ValveDescription>) {
    && TunnelsKnown(valves) && "AA" in NameIndex(valves)
    && forall a: nat, r: nat ::
         a < |valves| && r < |valves| && (a == NameIndex(valves)["AA"] || 0 < valves[a].rate) && 0 < valves[r].rate ==>
         Connected(valves, a, r)
  }

  /** A fresh route from `AA` over a mapping of solvable valves satisfies
      the search invariant. */
  lemma StartIsValid(valves: seq<ValveDescription>, m: Mapping, numParticipants: nat)
    requires MappingOf(valves, m) && Solvable(valves) && 0 < numParticipants
    ensures RouteInv(m, NameIndex(valves)["AA"], InitialState(numParticipants))
  {
    MappingIsValid(valves, m);
    var start := NameIndex(valves)["AA"];
    forall a: nat, r: nat ensures Reaches(m, start, a, r) {
      if a < |m.routes| && (a == start || a in m.relevantIndices) && r in m.relevantIndices && r < |m.routes[a]| {
        assert Connected(valves, a, r);
        var w :| Walk(Tunnels(valves), w) && w[0] == a && w[|w| - 1] == r;
        RoutesAreShortest(Tunnels(valves), a, m.routes[a], w);
      }
    }
  }

  /** `released` is what the search from `AA` finds over the mapping of
      `valves` with that many participants and that time limit. */
  ghost predicate IsBest(valves: seq<ValveDescription>, numParticipants: nat, timeLimit: nat, released: int) {
    && "AA" in NameIndex(valves)
    && exists m ::
      && MappingOf(valves, m) && RouteInv(m, NameIndex(valves)["AA"], InitialState(numParticipants))
      && released == BestFrom(m, NameIndex(valves)["AA"], InitialState(numParticipants), timeLimit)
  }

  /** `part_1`: the best one participant can release from `AA` in 30 minutes. */
  method Part1(valves: seq<ValveDescription>) returns (released: int)
    requires Solvable(valves)
    ensures IsBest(valves, 1, 30, released)
  {
    released := BestWithin(valves, 1, 30);
  }

  /** `part_2`: the best two participants can release from `AA` in 26 minutes. */
  method Part2(valves: seq<ValveDescription>) returns (released: int)
    requires Solvable(valves)
    ensures IsBest(valves, 2, 26, released)
  {
    released := BestWithin(valves, 2, 26);
  }

  /** Build the mapping, start a route from `AA` and search it. */
  method BestWithin(valves: seq<ValveDescription>, numParticipants: nat, timeLimit: nat) returns (released: int)
    requires Solvable(valves) && 0 < numParticipants
    ensures IsBest(valves, numParticipants, timeLimit, released)
  {
    var m := BuildMapping(valves);
    var start := m.nameToIdx["AA"];
    StartIsValid(valves, m, numParticipants);
    var route := new Route(m, start, numParticipants);
    released := route.FindBest(timeLimit);
  }
}
