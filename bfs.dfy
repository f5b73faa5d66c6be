/** The shared search engine: a FIFO frontier with cost relaxation and
    parent pointers, in a dense variant (cells in a vector indexed by node
    number) and a keyed variant (cells in a hash map).

    Both variants are classes whose fields are the vector or map of cells
    and the frontier queue.  Their invariants are stated once, over a map
    from key to cell, so that the dense variant reuses them through
    `LinearBfs.View`. */
module Bfs {
  import opened Common

  /** What is recorded for a node once it has been reached. */
  datatype Cell<K> = Cell(parent: Option<K>, cost: int)

  // ---------------------------------------------------------------------------
  // Invariants and relaxation, stated over a map view of the cells

  ghost predicate FrontierReached<K>(cells: map<K, Cell<K>>, consider: seq<K>) {
    forall i :: 0 <= i < |consider| ==> consider[i] in cells
  }

  ghost predicate ParentsReached<K>(cells: map<K, Cell<K>>) {
    forall k :: k in cells && cells[k].parent.Some? ==> cells[k].parent.value in cells
  }

  /** The candidate cost of reaching a node through `parent`. */
  function Candidate<K>(cells: map<K, Cell<K>>, parent: K, w: int): int
    requires parent in cells
  {
    cells[parent].cost + w
  }

  /** An edge is accepted when it reaches a new node or strictly improves
      the node's cost. */
  predicate Accepts<K>(cells: map<K, Cell<K>>, parent: K, key: K, w: int)
    requires parent in cells
  {
    key !in cells || Candidate(cells, parent, w) < cells[key].cost
  }

  /** The cells after an accepted edge. */
  function Relaxed<K>(cells: map<K, Cell<K>>, parent: K, key: K, w: int): map<K, Cell<K>>
    requires parent in cells
  {
    cells[key := Cell(Some(parent), Candidate(cells, parent, w))]
  }

  /** An accepted edge, whatever its weight, never loses a node and never
      raises a cost. */
  lemma RelaxationIsMonotone<K>(cells: map<K, Cell<K>>, parent: K, key: K, w: int, k: K)
    requires parent in cells && k in cells
    ensures Accepts(cells, parent, key, w) ==>
      k in Relaxed(cells, parent, key, w) && Relaxed(cells, parent, key, w)[k].cost <= cells[k].cost
  {
  }

  /** `a` comes strictly before `b` in the order (cost, time of the last
      update).  A parent always comes before its children, so walking
      parent pointers cannot loop. */
  ghost predicate Earlier<K>(cells: map<K, Cell<K>>, stamp: map<K, nat>, a: K, b: K) {
    && a in cells && b in cells && a in stamp && b in stamp
    && (cells[a].cost < cells[b].cost || (cells[a].cost == cells[b].cost && stamp[a] < stamp[b]))
  }

  ghost predicate Ranked<K>(cells: map<K, Cell<K>>, stamp: map<K, nat>) {
    && cells.Keys <= stamp.Keys
    && forall k :: k in cells && cells[k].parent.Some? ==> Earlier(cells, stamp, cells[k].parent.value, k)
  }

  ghost function Below<K>(cells: map<K, Cell<K>>, stamp: map<K, nat>, b: K): set<K> {
    set a | a in cells.Keys && Earlier(cells, stamp, a, b)
  }

  lemma BelowShrinks<K>(cells: map<K, Cell<K>>, stamp: map<K, nat>, a: K, b: K)
    requires Earlier(cells, stamp, a, b)
    ensures |Below(cells, stamp, a)| < |Below(cells, stamp, b)|
  {
    var A, B := Below(cells, stamp, a), Below(cells, stamp, b);
    assert A <= B;
    assert a in B - A;
    assert B == A + (B - A);
  }

  /** A path as `path_to` reports it: it starts at a root, every node's
      parent is the node before it, and cost never drops along the way. */
  ghost predicate IsPath<K>(cells: map<K, Cell<K>>, path: seq<K>) {
    && |path| > 0
    && (forall i :: 0 <= i < |path| ==> path[i] in cells)
    && cells[path[0]].parent.None?
    && (forall i :: 0 < i < |path| ==> cells[path[i]].parent == Some(path[i - 1]))
    && (forall i :: 0 < i < |path| ==> cells[path[i - 1]].cost <= cells[path[i]].cost)
  }

  /** The search of a unit-weight graph is layered: after expanding a node
      of cost `d`, the frontier holds costs in [d, d + 1] in order, and no
      node costs more than d + 1.  Under this invariant no edge of weight 1
      can improve a reached node, so callers never trip the "out of order"
      assertion. */
  ghost predicate Layered<K>(cells: map<K, Cell<K>>, consider: seq<K>, d: int) {
    && FrontierReached(cells, consider)
    && (forall k :: k in cells ==> cells[k].cost <= d + 1)
    && (forall i :: 0 <= i < |consider| ==> d <= cells[consider[i]].cost)
    && (forall i, j :: 0 <= i < j < |consider| ==> cells[consider[i]].cost <= cells[consider[j]].cost)
  }

  lemma LayeredStart<K>(root: K, c: int)
    ensures Layered(map[root := Cell(None, c)], [root], c)
  {
  }

  /** Taking the front of a layered frontier leaves a frontier layered at
      the cost of the node taken. */
  lemma LayeredPop<K>(cells: map<K, Cell<K>>, consider: seq<K>, d: int)
    requires Layered(cells, consider, d) && |consider| > 0
    ensures consider[0] in cells && d <= cells[consider[0]].cost
    ensures Layered(cells, consider[1..], cells[consider[0]].cost)
  {
    var rest := consider[1..];
    forall i | 0 <= i < |rest| ensures cells[consider[0]].cost <= cells[rest[i]].cost {
      assert rest[i] == consider[i + 1];
    }
  }

  /** A unit edge out of a node of cost `d` never improves a reached node
      and keeps the search layered. */
  lemma LayeredRelax<K>(cells: map<K, Cell<K>>, consider: seq<K>, d: int, parent: K, key: K)
    requires Layered(cells, consider, d) && parent in cells && cells[parent].cost == d
    ensures Accepts(cells, parent, key, 1) <==> key !in cells
    ensures Accepts(cells, parent, key, 1) ==> Layered(Relaxed(cells, parent, key, 1), consider + [key], d)
  {
    if key !in cells {
      var cells', consider' := Relaxed(cells, parent, key, 1), consider + [key];
      forall i | 0 <= i < |consider'| ensures consider'[i] in cells' && d <= cells'[consider'[i]].cost {
        if i < |consider| { assert consider'[i] == consider[i]; }
      }
      forall i, j | 0 <= i < j < |consider'|
        ensures cells'[consider'[i]].cost <= cells'[consider'[j]].cost
      {
        assert consider'[i] == consider[i];
        if j < |consider| { assert consider'[j] == consider[j]; }
      }
    }
  }

  // ---------------------------------------------------------------------------
  // The keyed variant

  class HashMapBfs<K(==, !new)> {
    var cells: map<K, Cell<K>>
    var consider: seq<K>
    /** Ghost bookkeeping: when each cell was last given a parent. */
    ghost var stamp: map<K, nat>
    ghost var clock: nat

    ghost predicate Valid()
      reads this
    {
      && FrontierReached(cells, consider)
      && ParentsReached(cells)
      && cells.Keys <= stamp.Keys
      && (forall k :: k in stamp ==> stamp[k] < clock)
    }

    /** Parent pointers are acyclic; kept by every edge of non-negative weight. */
    ghost predicate Acyclic()
      reads this
    {
      Valid() && Ranked(cells, stamp)
    }

    constructor ()
      ensures Valid() && Acyclic()
      ensures cells == map[] && consider == []
    {
      cells, consider := map[], [];
      stamp, clock := map[], 0;
    }

    /** The recorded cost of a key. In a valid search every key of the
        frontier has one, so `add_edge`'s `unwrap` on the parent popped from
        it succeeds, and so has the parent of every key that has one. */
    function Cost(key: K): (c: Option<int>)
      reads this
      ensures c.Some? <==> key in cells
      ensures c.Some? ==> c.value == cells[key].cost
      ensures Valid() && key in consider ==> c.Some?
      ensures Valid() && c.Some? && cells[key].parent.Some? ==> cells[key].parent.value in cells
    {
      if key in cells then Some(cells[key].cost) else None
    }

    method AddRoot(key: K, cost: int)
      requires Valid()
      modifies this
      ensures Valid()
      ensures cells == old(cells)[key := Cell(None, cost)]
      ensures consider == old(consider) + [key]
      ensures old(Acyclic()) && (key !in old(cells) || cost <= old(cells)[key].cost) ==> Acyclic()
    {
      if key !in stamp {
        stamp, clock := stamp[key := clock], clock + 1;
      }
      cells := cells[key := Cell(None, cost)];
      consider := consider + [key];
    }

    method ConsiderNext() returns (next: Option<K>)
      requires Valid()
      modifies this
      ensures Valid()
      ensures old(consider) == [] ==> next == None && consider == []
      ensures old(consider) != [] ==> next == Some(old(consider)[0]) && consider == old(consider)[1..]
      ensures next.Some? ==> next.value in cells
      ensures cells == old(cells) && stamp == old(stamp) && clock == old(clock)
    {
      if consider == [] {
        next := None;
      } else {
        next := Some(consider[0]);
        consider := consider[1..];
      }
    }

    method AddEdge(parent: K, key: K, additionalCost: int) returns (accepted: bool)
      requires Valid() && parent in cells
      // the "out of order" assertion: an improved node must still be waiting
      requires key in cells && Candidate(cells, parent, additionalCost) < cells[key].cost ==> key in consider
      modifies this
      ensures Valid()
      ensures accepted == Accepts(old(cells), parent, key, additionalCost)
      ensures accepted ==> (cells == Relaxed(old(cells), parent, key, additionalCost)
                            && consider == old(consider) + [key])
      ensures !accepted ==> cells == old(cells) && consider == old(consider)
      ensures old(Acyclic()) && additionalCost >= 0 ==> Acyclic()
    {
      var newCost := cells[parent].cost + additionalCost;
      if key in cells {
        if newCost < cells[key].cost {
          assert key in consider;
        } else {
          return false;
        }
      }
      ghost var before := cells;
      consider := consider + [key];
      cells := cells[key := Cell(Some(parent), newCost)];
      stamp, clock := stamp[key := clock], clock + 1;
      accepted := true;
      if old(Acyclic()) && additionalCost >= 0 {
        forall k | k in cells && cells[k].parent.Some?
          ensures Earlier(cells, stamp, cells[k].parent.value, k)
        {
          if k != key {
            assert before[k].parent.Some? && Earlier(before, old(stamp), cells[k].parent.value, k);
          }
        }
      }
    }

    method PathTo(key: K) returns (path: seq<K>)
      requires Acyclic() && key in cells
      ensures IsPath(cells, path) && path[|path| - 1] == key
      ensures cells[key].parent.None? ==> path == [key]
    {
      // The source pushes each node and reverses at the end; prepending
      // builds the same sequence.
      path := [];
      var current: Option<K> := Some(key);
      while current.Some?
        invariant current.Some? ==> current.value in cells
        invariant path == [] <==> current == Some(key)
        invariant forall i :: 0 <= i < |path| ==> path[i] in cells
        invariant path != [] ==> path[|path| - 1] == key && cells[path[0]].parent == current
        invariant forall i :: 0 < i < |path| ==> cells[path[i]].parent == Some(path[i - 1])
        invariant forall i :: 0 < i < |path| ==> cells[path[i - 1]].cost <= cells[path[i]].cost
        decreases if current.Some? then |Below(cells, stamp, current.value)| + 1 else 0
      {
        var at := current.value;
        path := [at] + path;
        current := cells[at].parent;
        if current.Some? {
          BelowShrinks(cells, stamp, current.value, at);
        }
      }
      if |path| > 1 {
        assert cells[path[|path| - 1]].parent == Some(path[|path| - 2]);
      }
    }

    function AllKnown(): (known: set<K>)
      reads this
      ensures forall k :: k in known <==> Cost(k).Some?
    {
      cells.Keys
    }
  }

  // ---------------------------------------------------------------------------
  // The dense variant

  /** The reached cells of a dense vector, as a map. */
  ghost function Reached(cells: seq<Option<Cell<nat>>>): map<nat, Cell<nat>> {
    map k | 0 <= k < |cells| && cells[k].Some? :: cells[k].value
  }

  lemma ReachedUpdate(cells: seq<Option<Cell<nat>>>, key: nat, c: Cell<nat>)
    requires key < |cells|
    ensures Reached(cells[key := Some(c)]) == Reached(cells)[key := c]
  {
  }

  class LinearBfs {
    var cells: seq<Option<Cell<nat>>>
    var consider: seq<nat>
    ghost var stamp: map<nat, nat>
    ghost var clock: nat

    /** The reached cells as a map, the form the invariants are stated in. */
    ghost function View(): map<nat, Cell<nat>>
      reads this
    {
      Reached(cells)
    }

    ghost predicate Valid()
      reads this
    {
      && FrontierReached(View(), consider)
      && ParentsReached(View())
      && View().Keys <= stamp.Keys
      && (forall k :: k in stamp ==> stamp[k] < clock)
    }

    ghost predicate Acyclic()
      reads this
    {
      Valid() && Ranked(View(), stamp)
    }

    constructor (size: nat)
      ensures Valid() && Acyclic()
      ensures |cells| == size && (forall k :: 0 <= k < size ==> cells[k].None?) && consider == []
      ensures View() == map[]
    {
      cells := seq(size, _ => None);
      consider := [];
      stamp, clock := map[], 0;
    }

    function Cost(key: nat): (c: Option<int>)
      reads this
      requires key < |cells|
      ensures c.Some? <==> cells[key].Some?
      ensures c.Some? ==> c.value == cells[key].value.cost && key in View()
    {
      if cells[key].Some? then Some(cells[key].value.cost) else None
    }


    method AddRoot(key: nat, cost: int)
      requires Valid() && key < |cells|
      modifies this
      ensures Valid()
      ensures cells == old(cells)[key := Some(Cell(None, cost))]
      ensures consider == old(consider) + [key]
      ensures View() == old(View())[key := Cell(None, cost)]
      ensures old(Acyclic()) && (key !in old(View()) || cost <= old(View())[key].cost) ==> Acyclic()
    {
      ReachedUpdate(cells, key, Cell(None, cost));
      if key !in stamp {
        stamp, clock := stamp[key := clock], clock + 1;
      }
      cells := cells[key := Some(Cell(None, cost))];
      consider := consider + [key];
    }

    method ConsiderNext() returns (next: Option<nat>)
      requires Valid()
      modifies this
      ensures Valid()
      ensures old(consider) == [] ==> next == None && consider == []
      ensures old(consider) != [] ==> next == Some(old(consider)[0]) && consider == old(consider)[1..]
      ensures next.Some? ==> next.value in View() && next.value < |cells|
      ensures cells == old(cells) && stamp == old(stamp) && clock == old(clock)
    {
      if consider == [] {
        next := None;
      } else {
        next := Some(consider[0]);
        consider := consider[1..];
      }
    }

    method AddEdge(parent: nat, key: nat, additionalCost: int) returns (accepted: bool)
      requires Valid() && parent < |cells| && key < |cells| && cells[parent].Some?
      // the "out of order" assertion
      requires cells[key].Some? && cells[parent].value.cost + additionalCost < cells[key].value.cost
               ==> key in consider
      modifies this
      ensures Valid() && |cells| == old(|cells|)
      ensures accepted == Accepts(old(View()), parent, key, additionalCost)
      ensures accepted ==> (cells == old(cells)[key := Some(Cell(Some(parent), old(cells)[parent].value.cost + additionalCost))]
                            && View() == Relaxed(old(View()), parent, key, additionalCost)
                            && consider == old(consider) + [key])
      ensures !accepted ==> cells == old(cells) && consider == old(consider)
      ensures old(Acyclic()) && additionalCost >= 0 ==> Acyclic()
    {
      var newCost := cells[parent].value.cost + additionalCost;
      assert parent in View();
      if cells[key].Some? {
        assert key in View();
        if newCost < cells[key].value.cost {
          assert key in consider;
        } else {
          return false;
        }
      }
      ghost var before := View();
      ReachedUpdate(cells, key, Cell(Some(parent), newCost));
      consider := consider + [key];
      cells := cells[key := Some(Cell(Some(parent), newCost))];
      stamp, clock := stamp[key := clock], clock + 1;
      accepted := true;
      assert View() == before[key := Cell(Some(parent), newCost)];
      if old(Acyclic()) && additionalCost >= 0 {
        var view := View();
        forall k | k in view && view[k].parent.Some?
          ensures Earlier(view, stamp, view[k].parent.value, k)
        {
          if k != key {
            assert before[k].parent.Some? && Earlier(before, old(stamp), view[k].parent.value, k);
          }
        }
      }
    }

    method PathTo(key: nat) returns (path: seq<nat>)
      requires Acyclic() && key < |cells| && cells[key].Some?
      ensures IsPath(View(), path) && path[|path| - 1] == key
      ensures forall i :: 0 <= i < |path| ==> path[i] < |cells|
      ensures cells[key].value.parent.None? ==> path == [key]
    {
      ghost var view := View();
      assert key in view;
      path := [];
      var current: Option<nat> := Some(key);
      while current.Some?
        invariant current.Some? ==> current.value in view
        invariant path == [] <==> current == Some(key)
        invariant forall i :: 0 <= i < |path| ==> path[i] in view
        invariant path != [] ==> path[|path| - 1] == key && view[path[0]].parent == current
        invariant forall i :: 0 < i < |path| ==> view[path[i]].parent == Some(path[i - 1])
        invariant forall i :: 0 < i < |path| ==> view[path[i - 1]].cost <= view[path[i]].cost
        decreases if current.Some? then |Below(view, stamp, current.value)| + 1 else 0
      {
        var at := current.value;
        path := [at] + path;
        current := cells[at].value.parent;
        if current.Some? {
          BelowShrinks(view, stamp, current.value, at);
        }
      }
      if |path| > 1 {
        assert view[path[|path| - 1]].parent == Some(path[|path| - 2]);
      }
    }
  }
}
