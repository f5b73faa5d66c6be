/** Day 14: regolith reservoir.  Rock paths form a cave; grains of sand
    fall from (500, 0) one at a time, each trying to move down, then down
    to the left, then down to the right, until it comes to rest. */
module Day14 {
  import opened Common

  datatype Coord = Coord(x: int, y: int)

  datatype Object = Air | Rock | Sand

  /** What `trace_sand` returns: `Ok` for a grain at rest, `Err` for one
      stopped because it left the region it may move in. */
  datatype Traced = Ok(pos: Coord) | Err(pos: Coord)

  function Abs(n: int): nat { if n < 0 then -n else n }

  function Signum(n: int): int { if n < 0 then -1 else if n == 0 then 0 else 1 }

  /** Indexing the cave: a coordinate with nothing recorded holds air. */
  function At(m: map<Coord, Object>, c: Coord): Object {
    if c in m then m[c] else Air
  }

  // ---------------------------------------------------------------------------
  // Rock paths

  /** `add_rock_path` accepts only horizontal and vertical segments. */
  predicate AxisAligned(a: Coord, b: Coord) { a.x == b.x || a.y == b.y }

  predicate AlignedPath(path: seq<Coord>) {
    forall i :: 0 <= i < |path| - 1 ==> AxisAligned(path[i], path[i + 1])
  }

  /** The unit step from `a` towards `b`. */
  function Direction(a: Coord, b: Coord): Coord { Coord(Signum(b.x - a.x), Signum(b.y - a.y)) }

  /** The number of points of segment `a`–`b`, both ends included. */
  function NumSteps(a: Coord, b: Coord): nat
    requires AxisAligned(a, b)
  {
    if a.x == b.x then Abs(b.y - a.y) + 1 else Abs(b.x - a.x) + 1
  }

  /** `i` steps of `d` from `a`, where `d` is a unit step. */
  function Offset(a: Coord, d: Coord, i: int): Coord
    requires -1 <= d.x <= 1 && -1 <= d.y <= 1
  {
    Coord(a.x + (if d.x == 0 then 0 else if d.x > 0 then i else -i),
          a.y + (if d.y == 0 then 0 else if d.y > 0 then i else -i))
  }

  /** The first `n` points `a`, `a + d`, `a + 2d`, ... */
  function Points(a: Coord, d: Coord, n: nat): set<Coord>
    requires -1 <= d.x <= 1 && -1 <= d.y <= 1
  {
    if n == 0 then {} else Points(a, d, n - 1) + {Offset(a, d, n - 1)}
  }

  lemma {:induction false} PointsMeaning(a: Coord, d: Coord, n: nat, c: Coord)
    requires -1 <= d.x <= 1 && -1 <= d.y <= 1
    ensures c in Points(a, d, n) <==> exists i :: 0 <= i < n && c == Offset(a, d, i)
  {
    if n > 0 {
      PointsMeaning(a, d, n - 1, c);
    }
  }

  /** The points of one segment. */
  function Segment(a: Coord, b: Coord): set<Coord>
    requires AxisAligned(a, b)
  {
    Points(a, Direction(a, b), NumSteps(a, b))
  }

  function Min(a: int, b: int): int { if a < b then a else b }

  function MaxOf(a: int, b: int): int { if a < b then b else a }

  /** Inside the box spanned by `a` and `b`. */
  predicate Between(a: Coord, b: Coord, c: Coord) {
    Min(a.x, b.x) <= c.x <= MaxOf(a.x, b.x) && Min(a.y, b.y) <= c.y <= MaxOf(a.y, b.y)
  }

  /** A segment holds exactly the points between its ends, both ends
      included. */
  lemma SegmentMeaning(a: Coord, b: Coord, c: Coord)
    requires AxisAligned(a, b)
    ensures c in Segment(a, b) <==> Between(a, b, c)
  {
    var d := Direction(a, b);
    PointsMeaning(a, d, NumSteps(a, b), c);
    if Between(a, b, c) {
      var i := if a.x == b.x then Abs(c.y - a.y) else Abs(c.x - a.x);
      assert c == Offset(a, d, i);
    }
  }

  /** The windows of a path: one fewer than its points, none for an empty
      path. */
  function Windows(path: seq<Coord>): nat { if |path| == 0 then 0 else |path| - 1 }

  /** The points of the first `k` segments of a path. */
  function PathRocks(path: seq<Coord>, k: nat): set<Coord>
    requires AlignedPath(path) && k <= Windows(path)
  {
    if k == 0 then {} else PathRocks(path, k - 1) + Segment(path[k - 1], path[k])
  }

  /** The points of all the paths. */
  function AllRocks(paths: seq<seq<Coord>>): set<Coord>
    requires forall i :: 0 <= i < |paths| ==> AlignedPath(paths[i])
  {
    if paths == [] then {}
    else
      var last := paths[|paths| - 1];
      AllRocks(paths[..|paths| - 1]) + PathRocks(last, Windows(last))
  }

  /** `m` with rock at every point of `s`. */
  function WithRock(m: map<Coord, Object>, s: set<Coord>): (r: map<Coord, Object>)
    ensures r.Keys == m.Keys + s
  {
    map c | c in m.Keys + s :: if c in s then Rock else m[c]
  }

  lemma WithRockAdd(m: map<Coord, Object>, s: set<Coord>, c: Coord)
    ensures WithRock(m, s)[c := Rock] == WithRock(m, s + {c})
  {
  }

  lemma WithRockTwice(m: map<Coord, Object>, s: set<Coord>, t: set<Coord>)
    ensures WithRock(WithRock(m, s), t) == WithRock(m, s + t)
  {
  }

  /** The cave built from the rock paths. */
  function Cave(paths: seq<seq<Coord>>): map<Coord, Object>
    requires forall i :: 0 <= i < |paths| ==> AlignedPath(paths[i])
  {
    WithRock(map[], AllRocks(paths))
  }

  /** The cave holds rock exactly at the points of the paths, and air
      elsewhere. */
  lemma CaveMeaning(paths: seq<seq<Coord>>, c: Coord)
    requires forall i :: 0 <= i < |paths| ==> AlignedPath(paths[i])
    ensures At(Cave(paths), c) == (if c in AllRocks(paths) then Rock else Air)
  {
  }

  /** A point is rock in the cave exactly when it lies on a segment of one
      of the paths. */
  lemma {:induction false} AllRocksMeaning(paths: seq<seq<Coord>>, c: Coord)
    requires forall i :: 0 <= i < |paths| ==> AlignedPath(paths[i])
    ensures c in AllRocks(paths) <==>
      exists i, k :: 0 <= i < |paths| && 0 <= k < Windows(paths[i]) && Between(paths[i][k], paths[i][k + 1], c)
  {
    if paths != [] {
      var init, last := paths[..|paths| - 1], paths[|paths| - 1];
      AllRocksMeaning(init, c);
      PathRocksMeaning(last, Windows(last), c);
      if exists i, k :: 0 <= i < |init| && 0 <= k < Windows(init[i]) && Between(init[i][k], init[i][k + 1], c) {
        var i, k :| 0 <= i < |init| && 0 <= k < Windows(init[i]) && Between(init[i][k], init[i][k + 1], c);
        assert paths[i] == init[i];
      }
      if exists i, k :: 0 <= i < |paths| && 0 <= k < Windows(paths[i]) && Between(paths[i][k], paths[i][k + 1], c) {
        var i, k :| 0 <= i < |paths| && 0 <= k < Windows(paths[i]) && Between(paths[i][k], paths[i][k + 1], c);
        if i < |init| {
          assert paths[i] == init[i];
        }
      }
    }
  }

  lemma {:induction false} PathRocksMeaning(path: seq<Coord>, n: nat, c: Coord)
    requires AlignedPath(path) && n <= Windows(path)
    ensures c in PathRocks(path, n) <==> exists k :: 0 <= k < n && Between(path[k], path[k + 1], c)
  {
    if n > 0 {
      PathRocksMeaning(path, n - 1, c);
      SegmentMeaning(path[n - 1], path[n], c);
    }
  }

  // ---------------------------------------------------------------------------
  // Falling sand

  /** One step down with horizontal offset `dx`. */
  function Below(p: Coord, dx: int): Coord { Coord(p.x + dx, p.y + 1) }

  /** All three cells below `p` are taken. */
  predicate Blocked(m: map<Coord, Object>, p: Coord) {
    At(m, Below(p, 0)) != Air && At(m, Below(p, -1)) != Air && At(m, Below(p, 1)) != Air
  }

  /** Where a grain at `p` moves next: straight down, else down-left,
      else down-right, into the first of them that holds air. */
  function NextPos(m: map<Coord, Object>, p: Coord): (r: Option<Coord>)
    ensures r.None? <==> Blocked(m, p)
    ensures r.Some? ==> r.value.y == p.y + 1 && -1 <= r.value.x - p.x <= 1 && At(m, r.value) == Air
    ensures r.Some? && r.value.x != p.x ==> At(m, Below(p, 0)) != Air
    ensures r.Some? && r.value.x == p.x + 1 ==> At(m, Below(p, -1)) != Air
  {
    if At(m, Below(p, 0)) == Air then Some(Below(p, 0))
    else if At(m, Below(p, -1)) == Air then Some(Below(p, -1))
    else if At(m, Below(p, 1)) == Air then Some(Below(p, 1))
    else None
  }

  /** The grain starting at `p` while the region is `y < bound`: it comes to
      rest on a blocked cell inside the region, or stops on reaching the
      bound.  It falls by one row per move and at most one column per row,
      and every cell it enters holds air. */
  function Fall(m: map<Coord, Object>, p: Coord, bound: int): (r: Traced)
    ensures r.Ok? ==> r.pos.y < bound && Blocked(m, r.pos)
    ensures r.Err? ==> r.pos.y >= bound && (p.y <= bound ==> r.pos.y == bound)
    ensures p.y <= r.pos.y && Abs(r.pos.x - p.x) <= r.pos.y - p.y
    ensures r.pos != p ==> At(m, r.pos) == Air
    ensures !(p.y < bound) ==> r == Err(p)
    decreases bound - p.y
  {
    if !(p.y < bound) then Err(p)
    else
      match NextPos(m, p)
      case None => Ok(p)
      case Some(q) => Fall(m, q, bound)
  }

  // ---------------------------------------------------------------------------
  // The cave as `part_1` and `part_2` update it

  /** The lowest row of a non-empty set of coordinates. */
  ghost function MaxY(s: set<Coord>): (r: int)
    requires s != {}
    ensures exists c :: c in s && c.y == r
    ensures forall c :: c in s ==> c.y <= r
  {
    var c :| c in s;
    if s == {c} then c.y else MaxOf(c.y, MaxY(s - {c}))
  }

  class CaveMap {
    var objects: map<Coord, Object>

    constructor ()
      ensures objects == map[]
    {
      objects := map[];
    }

    /** `Index`: air wherever nothing is recorded. */
    function Get(c: Coord): Object
      reads this
    {
      At(objects, c)
    }

    /** Puts rock on every point of every segment of `path`. */
    method AddRockPath(path: seq<Coord>)
      requires AlignedPath(path)
      modifies this
      ensures objects == WithRock(old(objects), PathRocks(path, Windows(path)))
    {
      for j := 0 to Windows(path)
        invariant objects == WithRock(old(objects), PathRocks(path, j))
      {
        var from, to := path[j], path[j + 1];
        var direction := Coord(Signum(to.x - from.x), Signum(to.y - from.y));
        var numSteps;
        if direction.x == 0 {
          numSteps := Abs(to.y - from.y) + 1;
        } else {
          assert direction.y == 0;
          numSteps := Abs(to.x - from.x) + 1;
        }
        ghost var base := objects;
        for i := 0 to numSteps
          invariant objects == WithRock(base, Points(from, direction, i))
        {
          WithRockAdd(base, Points(from, direction, i), Offset(from, direction, i));
          objects := objects[Offset(from, direction, i) := Rock];
        }
        WithRockTwice(old(objects), PathRocks(path, j), Segment(from, to));
      }
    }

    /** Puts sand at `pos`; nothing else changes. */
    method AddSand(pos: Coord)
      modifies this
      ensures objects == old(objects)[pos := Sand]
      ensures Get(pos) == Sand && forall c :: c != pos ==> Get(c) == old(Get(c))
    {
      objects := objects[pos := Sand];
    }

    /** The largest `y` of any recorded coordinate (the cave must not be
        empty). */
    method Lowest() returns (r: int)
      requires objects != map[]
      ensures r == MaxY(objects.Keys)
    {
      var keys := objects.Keys;
      var first :| first in keys;
      r := first.y;
      while keys != {}
        invariant keys <= objects.Keys
        invariant exists c :: c in objects.Keys && c.y == r
        invariant forall c :: c in objects.Keys - keys ==> c.y <= r
        invariant first !in keys ==> first.y <= r
        decreases |keys|
      {
        var c :| c in keys;
        if c.y > r {
          r := c.y;
        }
        keys := keys - {c};
      }
    }

    /** `trace_sand` with `continue_while` being `y < bound`: follows the
        grain from `start`, trying the cells down, down-left and
        down-right in that order. */
    method TraceSand(start: Coord, bound: int) returns (r: Traced)
      ensures r == Fall(objects, start, bound)
    {
      var pos := start;
      while pos.y < bound
        invariant Fall(objects, pos, bound) == Fall(objects, start, bound)
        decreases bound - pos.y
      {
        var directions := [Coord(0, 1), Coord(-1, 1), Coord(1, 1)];
        var moved := false;
        var newPos := pos;
        var k := 0;
        while k < 3 && !moved
          invariant 0 <= k <= 3
          invariant !moved && k > 0 ==> Get(Below(pos, 0)) != Air
          invariant !moved && k > 1 ==> Get(Below(pos, -1)) != Air
          invariant !moved && k > 2 ==> Get(Below(pos, 1)) != Air
          invariant moved ==> NextPos(objects, pos) == Some(newPos)
        {
          var candidate := Coord(pos.x + directions[k].x, pos.y + directions[k].y);
          assert candidate == Below(pos, directions[k].x);
          if Get(candidate) == Air {
            newPos := candidate;
            moved := true;
          }
          k := k + 1;
        }
        if !moved {
          return Ok(pos);
        }
        pos := newPos;
      }
      return Err(pos);
    }
  }

  /** The cave with every rock path added. */
  method BuildCave(input: seq<seq<Coord>>) returns (cave: CaveMap)
    requires forall i :: 0 <= i < |input| ==> AlignedPath(input[i])
    ensures fresh(cave) && cave.objects == Cave(input)
  {
    cave := new CaveMap();
    for i := 0 to |input|
      invariant cave.objects == Cave(input[..i])
    {
      assert input[..i + 1][..i] == input[..i];
      WithRockTwice(map[], AllRocks(input[..i]), PathRocks(input[i], Windows(input[i])));
      cave.AddRockPath(input[i]);
    }
    assert input[..|input|] == input;
  }

  // ---------------------------------------------------------------------------
  // Pouring sand

  /** Where every grain starts. */
  const Source := Coord(500, 0)

  /** Part 1 drops a grain and keeps it where it rests. */
  function Drop1(m: map<Coord, Object>, bound: int): map<Coord, Object> {
    match Fall(m, Source, bound)
    case Ok(p) => m[p := Sand]
    case Err(_) => m
  }

  /** The cave after `n` grains of part 1. */
  function After1(m: map<Coord, Object>, bound: int, n: nat): map<Coord, Object> {
    if n == 0 then m else Drop1(After1(m, bound, n - 1), bound)
  }

  /** A grain comes to rest on a cell that is already taken (the source,
      once sand has piled up to it): from here on nothing changes. */
  predicate Stuck1(m: map<Coord, Object>, bound: int) {
    var r := Fall(m, Source, bound);
    r.Ok? && At(m, r.pos) != Air
  }

  /** Part 2 keeps every grain, also one stopped by the floor. */
  function Drop2(m: map<Coord, Object>, bound: int): map<Coord, Object> {
    m[Fall(m, Source, bound).pos := Sand]
  }

  function After2(m: map<Coord, Object>, bound: int, n: nat): map<Coord, Object> {
    if n == 0 then m else Drop2(After2(m, bound, n - 1), bound)
  }

  /** A grain stopped by the floor on a cell already taken (the source,
      when the floor is not below it): from here on nothing changes. */
  predicate Stuck2(m: map<Coord, Object>, bound: int) {
    var r := Fall(m, Source, bound);
    r.Err? && At(m, r.pos) != Air
  }

  /** Once part 1 is stuck, every later grain rests too: `part_1` never
      returns. */
  lemma {:induction false} Stuck1Forever(m: map<Coord, Object>, bound: int, k: nat, j: nat)
    requires Stuck1(After1(m, bound, k), bound) && k <= j
    ensures Stuck1(After1(m, bound, j), bound)
    decreases j - k
  {
    if k < j {
      Stuck1Step(After1(m, bound, k), bound);
      Stuck1Forever(m, bound, k + 1, j);
    }
  }

  lemma Stuck1Step(m: map<Coord, Object>, bound: int)
    requires Stuck1(m, bound)
    ensures Stuck1(Drop1(m, bound), bound)
  {
    var m' := Drop1(m, bound);
    assert m' == m[Source := Sand];
    assert At(m', Below(Source, 0)) == At(m, Below(Source, 0));
    assert At(m', Below(Source, -1)) == At(m, Below(Source, -1));
    assert At(m', Below(Source, 1)) == At(m, Below(Source, 1));
    assert Fall(m', Source, bound) == Ok(Source);
  }

  /** Once part 2 is stuck, no grain ever rests at the source: `part_2`
      never returns. */
  lemma {:induction false} Stuck2Forever(m: map<Coord, Object>, bound: int, k: nat, j: nat)
    requires Stuck2(After2(m, bound, k), bound) && k <= j
    ensures Stuck2(After2(m, bound, j), bound)
    decreases j - k
  {
    if k < j {
      Stuck2Forever(m, bound, k + 1, j);
    }
  }

  /** The cells a grain from the source can reach while `y < bound`:
      rows 0 to `bound`, widening by one column per row. */
  ghost function Triangle(bound: int): set<Coord> {
    var b := if bound < 0 then 0 else bound;
    set x: int, y: int | 0 <= y <= b && 500 - y <= x <= 500 + y :: Coord(x, y)
  }

  ghost function NonAir(m: map<Coord, Object>): set<Coord> {
    set c | c in m.Keys && m[c] != Air
  }

  /** Free cells the grains can still fill. */
  ghost function AirLeft(m: map<Coord, Object>, bound: int): nat {
    |Triangle(bound) - NonAir(m)|
  }

  /** Every grain from the source ends inside the triangle. */
  lemma FallInTriangle(m: map<Coord, Object>, bound: int)
    ensures Fall(m, Source, bound).pos in Triangle(bound)
  {
    var p := Fall(m, Source, bound).pos;
    var b := if bound < 0 then 0 else bound;
    assert 0 <= p.y <= b && 500 - p.y <= p.x <= 500 + p.y;
  }

  lemma NonAirAdd(m: map<Coord, Object>, p: Coord)
    ensures NonAir(m[p := Sand]) == NonAir(m) + {p}
  {
  }

  /** Sand on a free cell of the triangle leaves one free cell fewer. */
  lemma Fill(m: map<Coord, Object>, bound: int, p: Coord)
    requires p in Triangle(bound) && At(m, p) == Air
    ensures AirLeft(m[p := Sand], bound) < AirLeft(m, bound)
  {
    var t := Triangle(bound);
    NonAirAdd(m, p);
    assert t - NonAir(m[p := Sand]) == (t - NonAir(m)) - {p};
  }

  /** The first `n` grains of part 1 come to rest. */
  predicate AllRest(m: map<Coord, Object>, bound: int, n: nat) {
    forall k :: 0 <= k < n ==> Fall(After1(m, bound, k), Source, bound).Ok?
  }

  /** Grain `n` (counting from 0) is the first to fall below the bound. */
  predicate FirstEscapes(m: map<Coord, Object>, bound: int, n: nat) {
    AllRest(m, bound, n) && Fall(After1(m, bound, n), Source, bound).Err?
  }

  lemma AllRestStep(m: map<Coord, Object>, bound: int, n: nat)
    requires AllRest(m, bound, n) && Fall(After1(m, bound, n), Source, bound).Ok?
    ensures AllRest(m, bound, n + 1)
  {
  }

  /** `part_1`: grains rest until one falls below the lowest rock; the
      answer is the number that came to rest.  `None` stands for the case
      where sand piles up to the source first, in which `part_1` never
      returns. */
  method Part1(input: seq<seq<Coord>>) returns (r: Option<nat>)
    requires forall i :: 0 <= i < |input| ==> AlignedPath(input[i])
    requires AllRocks(input) != {}
    ensures var m := Cave(input); var bound := MaxY(m.Keys);
      && (r.Some? ==> FirstEscapes(m, bound, r.value))
      && (r.None? ==> exists k: nat :: Stuck1(After1(m, bound, k), bound))
  {
    var caveMap := BuildCave(input);
    var max := caveMap.Lowest();
    ghost var m := caveMap.objects;
    var i := 0;
    while true
      invariant caveMap.objects == After1(m, max, i)
      invariant AllRest(m, max, i)
      decreases AirLeft(caveMap.objects, max)
    {
      var finalPos := caveMap.TraceSand(Source, max);
      if finalPos.Err? {
        assert FirstEscapes(m, max, i);
        return Some(i);
      }
      if caveMap.Get(finalPos.pos) != Air {
        assert Stuck1(After1(m, max, i), max);
        return None;
      }
      AllRestStep(m, max, i);
      FallInTriangle(caveMap.objects, max);
      Fill(caveMap.objects, max, finalPos.pos);
      caveMap.AddSand(finalPos.pos);
      i := i + 1;
    }
  }

  /** No grain among the first `n` of part 2 rests at the source. */
  predicate NoneAtSource(m: map<Coord, Object>, bound: int, n: nat) {
    forall k :: 0 <= k < n ==> Fall(After2(m, bound, k), Source, bound) != Ok(Source)
  }

  lemma NoneAtSourceStep(m: map<Coord, Object>, bound: int, n: nat)
    requires NoneAtSource(m, bound, n) && Fall(After2(m, bound, n), Source, bound) != Ok(Source)
    ensures NoneAtSource(m, bound, n + 1)
  {
  }

  /** Grain number `n` (counting from 1) is the first to rest at the
      source. */
  predicate FirstAtSource(m: map<Coord, Object>, bound: int, n: nat) {
    n >= 1 && NoneAtSource(m, bound, n - 1) && Fall(After2(m, bound, n - 1), Source, bound) == Ok(Source)
  }

  /** `part_2`: with a floor two rows below the lowest rock, grains pile
      up until one rests at the source; the answer counts that grain too.
      `None` stands for the case where the source is not above the floor,
      in which `part_2` never returns. */
  method Part2(input: seq<seq<Coord>>) returns (r: Option<nat>)
    requires forall i :: 0 <= i < |input| ==> AlignedPath(input[i])
    requires AllRocks(input) != {}
    ensures var m := Cave(input); var bound := MaxY(m.Keys) + 1;
      && (r.Some? ==> FirstAtSource(m, bound, r.value))
      && (r.None? ==> exists k: nat :: NoneAtSource(m, bound, k) && Stuck2(After2(m, bound, k), bound))
  {
    var caveMap := BuildCave(input);
    var lowest := caveMap.Lowest();
    lowest := lowest + 1;
    ghost var m := caveMap.objects;
    var i := 1;
    while true
      invariant i >= 1 && caveMap.objects == After2(m, lowest, i - 1)
      invariant NoneAtSource(m, lowest, i - 1)
      decreases AirLeft(caveMap.objects, lowest)
    {
      var finalPos := caveMap.TraceSand(Source, lowest);
      if finalPos.Ok? {
        if finalPos.pos == Source {
          assert FirstAtSource(m, lowest, i);
          caveMap.AddSand(finalPos.pos);
          return Some(i);
        }
      } else if caveMap.Get(finalPos.pos) != Air {
        assert NoneAtSource(m, lowest, i - 1) && Stuck2(After2(m, lowest, i - 1), lowest);
        return None;
      }
      NoneAtSourceStep(m, lowest, i - 1);
      FallInTriangle(caveMap.objects, lowest);
      Fill(caveMap.objects, lowest, finalPos.pos);
      caveMap.AddSand(finalPos.pos);
      i := i + 1;
    }
  }
}
