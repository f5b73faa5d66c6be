/** Day 18: boiling boulders.  Lava droplets are unit cubes on an integer
    grid; part 1 counts the faces not shared by two cubes, part 2 first
    fills every pocket of air that steam from outside cannot reach, found by
    a flood fill through a box one cell larger than the droplets. */
module Day18 {
  import opened Common
  import Bfs

  datatype Coord = Coord(x: int, y: int, z: int)

  /** Coordinate `i` of `c`. */
  function Axis(c: Coord, i: nat): int
    requires i < 3
  {
    if i == 0 then c.x else if i == 1 then c.y else c.z
  }

  function Abs(a: int): nat { if a < 0 then -a else a }

  /** `a` and `b` differ by one on exactly one axis: they share a face. */
  predicate Adjacent(a: Coord, b: Coord) {
    Abs(a.x - b.x) + Abs(a.y - b.y) + Abs(a.z - b.z) == 1
  }

  /** `neighbors`: the six face neighbours, −x, +x, −y, +y, −z, +z. */
  function Neighbors(c: Coord): (r: seq<Coord>)
    ensures |r| == 6
  {
    [c.(x := c.x - 1), c.(x := c.x + 1), c.(y := c.y - 1), c.(y := c.y + 1), c.(z := c.z - 1), c.(z := c.z + 1)]
  }

  /** The neighbours are exactly the six cells sharing a face with `c`, each
      listed once. */
  lemma NeighborsAreFaces(c: Coord)
    ensures forall n :: n in Neighbors(c) <==> Adjacent(c, n)
    ensures forall i, j :: 0 <= i < j < 6 ==> Neighbors(c)[i] != Neighbors(c)[j]
  {
  }

  // ---------------------------------------------------------------------------
  // The cube map

  /** An inclusive range of one axis. */
  datatype Range = Range(lo: int, hi: int)

  predicate InRange(r: Range, v: int) { r.lo <= v <= r.hi }

  /** `CubeMap`: the set of cubes and the limits the flood fill keeps to. */
  datatype CubeMap = CubeMap(cubes: set<Coord>, limits: seq<Range>)

  function CubeSet(input: seq<Coord>): set<Coord> { set c | c in input }

  /** Coordinate `i` of every cube of the input. */
  function AxisValues(input: seq<Coord>, i: nat): (v: seq<int>)
    requires i < 3
    ensures |v| == |input| && forall k :: 0 <= k < |input| ==> v[k] == Axis(input[k], i)
  {
    seq(|input|, k requires 0 <= k < |input| => Axis(input[k], i))
  }

  /** The smallest element of a non-empty sequence. */
  function MinOf(s: seq<int>): (m: int)
    requires |s| > 0
    ensures m in s
    ensures forall i :: 0 <= i < |s| ==> m <= s[i]
  {
    if |s| == 1 then s[0]
    else
      var rest := MinOf(s[..|s| - 1]);
      assert forall i :: 0 <= i < |s| - 1 ==> s[i] == s[..|s| - 1][i];
      if s[|s| - 1] < rest then s[|s| - 1] else rest
  }

  /** The limits of axis `i`: one cell beyond the smallest and the largest
      coordinate; `minmax` reports a lone cube as one element, and then the
      range reaches two cells above it. */
  function Limit(input: seq<Coord>, i: nat): (r: Range)
    requires |input| > 0 && i < 3
    ensures forall k :: 0 <= k < |input| ==> r.lo < Axis(input[k], i) < r.hi
    ensures exists k :: 0 <= k < |input| && Axis(input[k], i) == r.lo + 1
  {
    var values := AxisValues(input, i);
    if |CubeSet(input)| == 1 then
      SingletonInput(input);
      Range(values[0] - 1, values[0] + 2)
    else
      Range(MinOf(values) - 1, Max(values) + 1)
  }

  /** A single cube, however often it is listed, is the only one. */
  lemma SingletonInput(input: seq<Coord>)
    requires |input| > 0 && |CubeSet(input)| == 1
    ensures forall k :: 0 <= k < |input| ==> input[k] == input[0]
  {
    var cubes := CubeSet(input);
    assert input[0] in cubes;
    assert cubes == (cubes - {input[0]}) + {input[0]};
    assert |cubes - {input[0]}| == 0;
    forall k | 0 <= k < |input| ensures input[k] == input[0] {
      assert input[k] in cubes;
    }
  }

  /** `CubeMap::from_iter`: the listed cubes and, per axis, the range
      `minmax` gives; `None` for the `panic!` on an empty input. */
  function FromCubes(input: seq<Coord>): (m: Option<CubeMap>)
    ensures m.None? <==> |input| == 0
    ensures m.Some? ==> m.value.cubes == CubeSet(input) && |m.value.limits| == 3
    ensures m.Some? ==> forall i :: 0 <= i < 3 ==> m.value.limits[i] == Limit(input, i)
  {
    if |input| == 0 then None
    else Some(CubeMap(CubeSet(input), [Limit(input, 0), Limit(input, 1), Limit(input, 2)]))
  }

  predicate InLimits(limits: seq<Range>, c: Coord)
    requires |limits| == 3
  {
    InRange(limits[0], c.x) && InRange(limits[1], c.y) && InRange(limits[2], c.z)
  }

  /** A cell the flood fill may enter: within the limits and not a cube. */
  predicate Open(m: CubeMap, c: Coord)
    requires |m.limits| == 3
  {
    c !in m.cubes && InLimits(m.limits, c)
  }

  /** Every cube lies strictly inside the limits, so no cube is on the
      boundary of the box, and the corner the flood fill starts from is air. */
  lemma CubesInside(input: seq<Coord>, c: Coord)
    requires |input| > 0 && c in CubeSet(input)
    ensures var m := FromCubes(input).value;
      forall i :: 0 <= i < 3 ==> m.limits[i].lo < Axis(c, i) < m.limits[i].hi
  {
    var k :| 0 <= k < |input| && input[k] == c;
  }

  /** The cell of the box with the lowest coordinate on every axis. */
  function Corner(m: CubeMap): Coord
    requires |m.limits| == 3
  {
    Coord(m.limits[0].lo, m.limits[1].lo, m.limits[2].lo)
  }

  lemma CornerIsOpen(input: seq<Coord>)
    requires |input| > 0
    ensures Open(FromCubes(input).value, Corner(FromCubes(input).value))
  {
    var m := FromCubes(input).value;
    var corner := Corner(m);
    assert InRange(m.limits[0], corner.x) by {
      assert Limit(input, 0).lo < Axis(input[0], 0) < Limit(input, 0).hi;
    }
    assert InRange(m.limits[1], corner.y) by {
      assert Limit(input, 1).lo < Axis(input[0], 1) < Limit(input, 1).hi;
    }
    assert InRange(m.limits[2], corner.z) by {
      assert Limit(input, 2).lo < Axis(input[0], 2) < Limit(input, 2).hi;
    }
  }

  /** Every cell within the limits: what `multi_cartesian_product` walks. */
  function Box(limits: seq<Range>): (b: set<Coord>)
    requires |limits| == 3
    ensures forall c :: c in b <==> InLimits(limits, c)
  {
    set x, y, z | limits[0].lo <= x <= limits[0].hi && limits[1].lo <= y <= limits[1].hi
      && limits[2].lo <= z <= limits[2].hi :: Coord(x, y, z)
  }

  // ---------------------------------------------------------------------------
  // Surface area

  /** How many of `cells` are not cubes. */
  function CountMissing(cubes: set<Coord>, cells: seq<Coord>): (n: nat)
    ensures n <= |cells|
  {
    if cells == [] then 0
    else (if cells[0] in cubes then 0 else 1) + CountMissing(cubes, cells[1..])
  }

  /** The faces of `c` that do not touch another cube. */
  function OpenFaces(cubes: set<Coord>, c: Coord): (n: nat)
    ensures n <= 6
  {
    CountMissing(cubes, Neighbors(c))
  }

  /** `count_surface_area`: the open faces of all the cubes, summed over the
      set in no particular order. */
  ghost function SurfaceArea(cubes: set<Coord>): int {
    SetSum(cubes, c => OpenFaces(cubes, c))
  }

  /** Summing the open faces of some of the cubes gives between 0 and six
      per cube. */
  lemma {:induction false} FacesBounded(cubes: set<Coord>, part: set<Coord>)
    ensures 0 <= SetSum(part, c => OpenFaces(cubes, c)) <= 6 * |part|
    decreases |part|
  {
    if part != {} {
      var x :| x in part;
      SetSumRemove(part, c => OpenFaces(cubes, c), x);
      FacesBounded(cubes, part - {x});
    }
  }

  /** The surface has between 0 and 6 faces per cube. */
  lemma SurfaceBounded(cubes: set<Coord>)
    ensures 0 <= SurfaceArea(cubes) <= 6 * |cubes|
  {
    FacesBounded(cubes, cubes);
  }

  /** Cells none of which is a cube are all missing. */
  lemma {:induction false} AllMissing(cubes: set<Coord>, cells: seq<Coord>)
    requires forall i :: 0 <= i < |cells| ==> cells[i] !in cubes
    ensures CountMissing(cubes, cells) == |cells|
  {
    if cells != [] {
      AllMissing(cubes, cells[1..]);
    }
  }

  /** A lone cube shows all six faces. */
  lemma SingleCube(c: Coord)
    ensures SurfaceArea({c}) == 6
  {
    SetSumRemove({c}, d => OpenFaces({c}, d), c);
    assert {c} - {c} == {};
    AllMissing({c}, Neighbors(c));
  }

  /** The `.sum()` that consumes the pipeline: the open faces of each cube,
      taken from the set one at a time. */
  method CountSurfaceArea(cubes: set<Coord>) returns (area: int)
    ensures area == SurfaceArea(cubes)
  {
    var f := c => OpenFaces(cubes, c);
    var remaining := cubes;
    area := 0;
    while remaining != {}
      invariant remaining <= cubes
      invariant area + SetSum(remaining, f) == SetSum(cubes, f)
      decreases |remaining|
    {
      var c :| c in remaining;
      SetSumRemove(remaining, f, c);
      area := area + OpenFaces(cubes, c);
      remaining := remaining - {c};
    }
  }

  /** Part 1: the surface of the droplets; `None` where an empty input
      panics. */
  method Part1(input: seq<Coord>) returns (area: Option<int>)
    ensures area.None? <==> |input| == 0
    ensures area.Some? ==> area.value == SurfaceArea(CubeSet(input))
    ensures area.Some? ==> 0 <= area.value <= 6 * |CubeSet(input)|
  {
    var m := FromCubes(input);
    if m.None? {
      return None;
    }
    var a := CountSurfaceArea(m.value.cubes);
    SurfaceBounded(m.value.cubes);
    area := Some(a);
  }

  // ---------------------------------------------------------------------------
  // Flood fill

  /** `w` walks from `start` to `c` one face at a time through open cells. */
  ghost predicate OpenWalk(m: CubeMap, start: Coord, w: seq<Coord>, c: Coord)
    requires |m.limits| == 3
  {
    && |w| > 0 && w[0] == start && w[|w| - 1] == c
    && (forall i :: 0 < i < |w| ==> Open(m, w[i]))
    && (forall i :: 0 < i < |w| ==> w[i] in Neighbors(w[i - 1]))
  }

  /** Steam from `start` reaches `c`. */
  ghost predicate Exterior(m: CubeMap, start: Coord, c: Coord)
    requires |m.limits| == 3
  {
    exists w :: OpenWalk(m, start, w, c)
  }

  predicate Distinct(s: seq<Coord>) {
    forall i, j :: 0 <= i < j < |s| ==> s[i] != s[j]
  }

  /** What the search has reached: the start and open cells, all at cost 0
      (every edge of the flood fill is free), each with a walk from the
      start. */
  ghost predicate Reached(m: CubeMap, start: Coord, cells: map<Coord, Bfs.Cell<Coord>>, walks: map<Coord, seq<Coord>>)
    requires |m.limits| == 3
  {
    && start in cells
    && forall k :: k in cells ==>
         && cells[k].cost == 0 && (k == start || Open(m, k))
         && k in walks && OpenWalk(m, start, walks[k], k)
  }

  /** Each reached cell is either yielded already or waiting, exactly once. */
  ghost predicate Queued(cells: map<Coord, Bfs.Cell<Coord>>, yielded: seq<Coord>, consider: seq<Coord>) {
    && Distinct(yielded + consider)
    && forall k :: k in cells <==> k in yielded || k in consider
  }

  /** Taking the head of the queue moves it to the yielded cells. */
  lemma QueuedPop(cells: map<Coord, Bfs.Cell<Coord>>, yielded: seq<Coord>, consider: seq<Coord>)
    requires |consider| > 0 && Queued(cells, yielded, consider)
    ensures Queued(cells, yielded + [consider[0]], consider[1..])
  {
    assert yielded + consider == (yielded + [consider[0]]) + consider[1..];
  }

  /** A newly reached cell joins the back of the queue. */
  lemma QueuedPush(cells: map<Coord, Bfs.Cell<Coord>>, yielded: seq<Coord>, consider: seq<Coord>, key: Coord, v: Bfs.Cell<Coord>)
    requires Queued(cells, yielded, consider) && key !in cells
    ensures Queued(cells[key := v], yielded, consider + [key])
  {
    assert yielded + (consider + [key]) == (yielded + consider) + [key];
  }

  /** A newly reached open neighbour of a reached cell extends that cell's
      walk. */
  lemma ReachedPush(m: CubeMap, start: Coord, cells: map<Coord, Bfs.Cell<Coord>>, walks: map<Coord, seq<Coord>>,
                    coord: Coord, n: Coord, v: Bfs.Cell<Coord>)
    requires |m.limits| == 3 && Reached(m, start, cells, walks) && coord in cells
    requires Open(m, n) && n in Neighbors(coord) && v.cost == 0
    ensures Reached(m, start, cells[n := v], walks[n := walks[coord] + [n]])
  {
    var w := walks[coord] + [n];
    assert OpenWalk(m, start, w, n);
  }

  /** The first `j` neighbours of `c` are reached if they are open. */
  ghost predicate ClosedAt(m: CubeMap, cells: map<Coord, Bfs.Cell<Coord>>, c: Coord, j: nat)
    requires |m.limits| == 3 && j <= 6
  {
    forall t :: 0 <= t < j ==> Open(m, Neighbors(c)[t]) ==> Neighbors(c)[t] in cells
  }

  /** Every yielded cell has had its open neighbours reached. */
  ghost predicate Closed(m: CubeMap, cells: map<Coord, Bfs.Cell<Coord>>, yielded: seq<Coord>)
    requires |m.limits| == 3
  {
    forall i :: 0 <= i < |yielded| ==> ClosedAt(m, cells, yielded[i], 6)
  }

  /** Reaching more cells keeps yielded cells closed. */
  lemma ClosedGrows(m: CubeMap, cells: map<Coord, Bfs.Cell<Coord>>, cells': map<Coord, Bfs.Cell<Coord>>, yielded: seq<Coord>)
    requires |m.limits| == 3 && Closed(m, cells, yielded) && cells.Keys <= cells'.Keys
    ensures Closed(m, cells', yielded)
  {
    forall i | 0 <= i < |yielded| ensures ClosedAt(m, cells', yielded[i], 6) {
      assert ClosedAt(m, cells, yielded[i], 6);
    }
  }

  /** A part of a finite set is no larger than the set. */
  lemma {:induction false} SubsetSize<T>(a: set<T>, b: set<T>)
    requires a <= b
    ensures |a| <= |b|
  {
    assert b == (b - a) + a;
    assert (b - a) * a == {};
  }

  /** The search never reaches more cells than the box and the start hold. */
  lemma ReachedBounded(m: CubeMap, start: Coord, cells: map<Coord, Bfs.Cell<Coord>>, walks: map<Coord, seq<Coord>>)
    requires |m.limits| == 3 && Reached(m, start, cells, walks)
    ensures |cells| <= |Box(m.limits) + {start}|
  {
    assert cells.Keys <= Box(m.limits) + {start};
    SubsetSize(cells.Keys, Box(m.limits) + {start});
  }

  /** The state of the flood fill after yielding `yielded`: the search's
      cells, its queue and the ghost walks that witness each cell. */
  ghost predicate FillInv(m: CubeMap, start: Coord, cells: map<Coord, Bfs.Cell<Coord>>, consider: seq<Coord>,
                          walks: map<Coord, seq<Coord>>, yielded: seq<Coord>)
    requires |m.limits| == 3
  {
    && Reached(m, start, cells, walks) && Queued(cells, yielded, consider) && Closed(m, cells, yielded)
    && (yielded == [] ==> consider == [start])
    && (yielded != [] ==> yielded[0] == start)
  }

  /** One step of the loop over the neighbours of `coord`: an edge of cost 0
      to the `t`-th of them when it is open. */
  method VisitNeighbor(bfs: Bfs.HashMapBfs<Coord>, m: CubeMap, coord: Coord, t: nat, ghost start: Coord,
                       ghost yielded: seq<Coord>, ghost walks0: map<Coord, seq<Coord>>)
    returns (ghost walks: map<Coord, seq<Coord>>)
    requires bfs.Valid() && |m.limits| == 3 && coord in bfs.cells && t < 6 && |yielded| > 0
    requires Reached(m, start, bfs.cells, walks0) && Queued(bfs.cells, yielded, bfs.consider)
    requires Closed(m, bfs.cells, yielded[..|yielded| - 1]) && ClosedAt(m, bfs.cells, coord, t)
    modifies bfs
    ensures bfs.Valid() && Reached(m, start, bfs.cells, walks) && Queued(bfs.cells, yielded, bfs.consider)
    ensures Closed(m, bfs.cells, yielded[..|yielded| - 1]) && ClosedAt(m, bfs.cells, coord, t + 1)
    ensures |old(bfs.cells)| <= |bfs.cells|
    ensures |old(bfs.cells)| == |bfs.cells| ==> bfs.consider == old(bfs.consider)
  {
    walks := walks0;
    var n := Neighbors(coord)[t];
    if n !in m.cubes && InLimits(m.limits, n) {
      ghost var before, queue := bfs.cells, bfs.consider;
      var accepted := bfs.AddEdge(coord, n, 0);
      if accepted {
        QueuedPush(before, yielded, queue, n, bfs.cells[n]);
        ReachedPush(m, start, before, walks, coord, n, bfs.cells[n]);
        walks := walks[n := walks[coord] + [n]];
        ClosedGrows(m, before, bfs.cells, yielded[..|yielded| - 1]);
      }
    }
  }

  /** The body of the flood fill's iterator for the cell `coord` it has
      just taken: an edge of cost 0 to every open neighbour. */
  method Expand(bfs: Bfs.HashMapBfs<Coord>, m: CubeMap, coord: Coord, ghost start: Coord,
                ghost yielded: seq<Coord>, ghost walks0: map<Coord, seq<Coord>>)
    returns (ghost walks: map<Coord, seq<Coord>>)
    requires bfs.Valid() && |m.limits| == 3 && coord in bfs.cells
    requires Reached(m, start, bfs.cells, walks0) && Queued(bfs.cells, yielded + [coord], bfs.consider)
    requires Closed(m, bfs.cells, yielded)
    modifies bfs
    ensures bfs.Valid() && Reached(m, start, bfs.cells, walks)
    ensures Queued(bfs.cells, yielded + [coord], bfs.consider) && Closed(m, bfs.cells, yielded + [coord])
    ensures |old(bfs.cells)| <= |bfs.cells|
    ensures |old(bfs.cells)| == |bfs.cells| ==> bfs.consider == old(bfs.consider)
  {
    walks := walks0;
    ghost var all := yielded + [coord];
    assert all[..|all| - 1] == yielded;
    for t := 0 to 6
      invariant bfs.Valid() && Reached(m, start, bfs.cells, walks) && Queued(bfs.cells, all, bfs.consider)
      invariant Closed(m, bfs.cells, yielded) && ClosedAt(m, bfs.cells, coord, t)
      invariant |old(bfs.cells)| <= |bfs.cells|
      invariant |old(bfs.cells)| == |bfs.cells| ==> bfs.consider == old(bfs.consider)
    {
      walks := VisitNeighbor(bfs, m, coord, t, start, all, walks);
    }
    assert Closed(m, bfs.cells, all) by {
      forall i | 0 <= i < |all| ensures ClosedAt(m, bfs.cells, all[i], 6) {
        if i < |yielded| {
          assert all[i] == yielded[i];
        }
      }
    }
  }

  /** Once the queue is empty, the yielded cells are exactly the reached
      ones. */
  lemma FillDone(m: CubeMap, start: Coord, cells: map<Coord, Bfs.Cell<Coord>>, walks: map<Coord, seq<Coord>>, reached: seq<Coord>)
    requires |m.limits| == 3 && FillInv(m, start, cells, [], walks, reached)
    ensures |reached| > 0 && reached[0] == start && Distinct(reached)
    ensures forall i :: 0 <= i < |reached| ==>
      (reached[i] == start || Open(m, reached[i])) && reached[i] in walks && OpenWalk(m, start, walks[reached[i]], reached[i])
    ensures forall i, t :: 0 <= i < |reached| && 0 <= t < 6 && Open(m, Neighbors(reached[i])[t]) ==> Neighbors(reached[i])[t] in reached
  {
    assert reached + [] == reached;
    forall i, t | 0 <= i < |reached| && 0 <= t < 6 && Open(m, Neighbors(reached[i])[t])
      ensures Neighbors(reached[i])[t] in reached
    {
      assert ClosedAt(m, cells, reached[i], 6);
    }
  }

  /** `flood_fill`: every cell it yields, in order.  Each is yielded at most
      once; each is the start or open, and reached from the start through
      open cells; every open neighbour of a yielded cell is yielded too. */
  method FloodFill(m: CubeMap, start: Coord) returns (reached: seq<Coord>, ghost walks: map<Coord, seq<Coord>>)
    requires |m.limits| == 3
    ensures |reached| > 0 && reached[0] == start && Distinct(reached)
    ensures forall i :: 0 <= i < |reached| ==>
      (reached[i] == start || Open(m, reached[i])) && reached[i] in walks && OpenWalk(m, start, walks[reached[i]], reached[i])
    ensures forall i, t :: 0 <= i < |reached| && 0 <= t < 6 && Open(m, Neighbors(reached[i])[t]) ==> Neighbors(reached[i])[t] in reached
  {
    var bfs := new Bfs.HashMapBfs<Coord>();
    bfs.AddRoot(start, 0);
    walks := map[start := [start]];
    reached := [];
    assert OpenWalk(m, start, [start], start);
    ghost var bound := |Box(m.limits) + {start}|;
    ReachedBounded(m, start, bfs.cells, walks);
    while true
      invariant bfs.Valid() && FillInv(m, start, bfs.cells, bfs.consider, walks, reached)
      invariant |bfs.cells| <= bound
      decreases bound - |bfs.cells|, |bfs.consider|
    {
      ghost var queue := bfs.consider;
      var next := bfs.ConsiderNext();
      if next.None? {
        break;
      }
      var coord := next.value;
      QueuedPop(bfs.cells, reached, queue);
      walks := Expand(bfs, m, coord, start, reached, walks);
      reached := reached + [coord];
      ReachedBounded(m, start, bfs.cells, walks);
    }
    FillDone(m, start, bfs.cells, walks, reached);
  }

  // ---------------------------------------------------------------------------
  // Part 2

  /** The droplets with every pocket filled: each cell of the box that the
      steam cannot reach from the corner becomes a cube. */
  ghost function FilledIn(m: CubeMap): set<Coord>
    requires |m.limits| == 3
  {
    m.cubes + set c | c in Box(m.limits) && c !in m.cubes && !Exterior(m, Corner(m), c)
  }

  /** A walk through open cells from a reached cell stays among the
      reached cells when they are closed under open neighbours. */
  lemma {:induction false} WalkStaysReached(m: CubeMap, reached: seq<Coord>, w: seq<Coord>, start: Coord)
    requires |m.limits| == 3 && |w| > 0 && w[0] == start && start in reached
    requires forall i :: 0 < i < |w| ==> Open(m, w[i]) && w[i] in Neighbors(w[i - 1])
    requires forall i, t :: 0 <= i < |reached| && 0 <= t < 6 && Open(m, Neighbors(reached[i])[t]) ==> Neighbors(reached[i])[t] in reached
    ensures w[|w| - 1] in reached
  {
    if |w| > 1 {
      var prefix := w[..|w| - 1];
      WalkStaysReached(m, reached, prefix, start);
      var last := w[|w| - 1];
      var i :| 0 <= i < |reached| && reached[i] == w[|w| - 2];
      var t :| 0 <= t < 6 && Neighbors(reached[i])[t] == last;
    }
  }

  /** Part 2: the surface of the droplets once their pockets are filled,
      counting only the faces that steam reaches. */
  method Part2(input: seq<Coord>) returns (area: Option<int>)
    ensures area.None? <==> |input| == 0
    ensures area.Some? ==> area.value == SurfaceArea(FilledIn(FromCubes(input).value))
  {
    var mm := FromCubes(input);
    if mm.None? {
      return None;
    }
    CornerIsOpen(input);
    var filled := FillInterior(mm.value);
    var a := CountSurfaceArea(filled);
    area := Some(a);
  }

  /** The cubes of `part_2` once every cell of the box that the flood from
      the low corner does not reach is filled in. */
  method FillInterior(m: CubeMap) returns (filled: set<Coord>)
    requires |m.limits| == 3 && Open(m, Corner(m))
    ensures filled == FilledIn(m)
  {
    var corner := Corner(m);
    var reached, walks := FloodFill(m, corner);
    var nonInterior := (set c | c in reached) + m.cubes;
    filled := m.cubes + set c | c in Box(m.limits) && c !in nonInterior;
    forall c | c in Box(m.limits) && c !in m.cubes
      ensures c in nonInterior <==> Exterior(m, corner, c)
    {
      if c in nonInterior {
        var i :| 0 <= i < |reached| && reached[i] == c;
        assert OpenWalk(m, corner, walks[c], c);
      }
      if Exterior(m, corner, c) {
        var w :| OpenWalk(m, corner, w, c);
        WalkStaysReached(m, reached, w, corner);
      }
    }
    assert filled == FilledIn(m);
  }

  /** Every face counted in part 2 looks onto air outside the box or onto
      air the steam reaches. */
  lemma FilledFacesAreExterior(m: CubeMap, c: Coord, n: Coord)
    requires |m.limits| == 3 && c in FilledIn(m) && n in Neighbors(c) && n !in FilledIn(m)
    ensures n !in m.cubes && (!InLimits(m.limits, n) || Exterior(m, Corner(m), n))
  {
  }
}
