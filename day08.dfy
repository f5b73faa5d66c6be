/** Day 8: treetop tree house.  A rectangular forest of tree heights,
    stored row by row; trees are counted as visible from the edges, and
    each tree gets a scenic score from its viewing distances. */
module Day8 {
  import opened Common

  datatype Forest = Forest(cols: nat, rows: nat, heights: seq<nat>)

  /** `cols * rows`, the number of cells of the grid (`CellsIsProduct`);
      it, `RowMajor` and `Mul` are written as repeated addition so that
      the proofs below stay within linear arithmetic. */
  function Cells(cols: nat, rows: nat): nat {
    if rows == 0 then 0 else cols + Cells(cols, rows - 1)
  }

  lemma {:induction false} CellsIsProduct(cols: nat, rows: nat)
    ensures Cells(cols, rows) == cols * rows
  {
    if rows > 0 {
      CellsIsProduct(cols, rows - 1);
    }
  }

  /** The grid fits in the stored heights (`rows` is the height count
      divided by `cols`, rounded down). */
  predicate Valid(f: Forest) { Cells(f.cols, f.rows) <= |f.heights| }

  /** Row-major position of column `x` in row `y`, that is
      `x + y * cols` (`RowMajorIsProduct`). */
  function RowMajor(cols: nat, x: nat, y: nat): nat {
    if y == 0 then x else cols + RowMajor(cols, x, y - 1)
  }

  lemma {:induction false} RowMajorIsProduct(cols: nat, x: nat, y: nat)
    ensures RowMajor(cols, x, y) == x + y * cols
  {
    if y > 0 {
      RowMajorIsProduct(cols, x, y - 1);
    }
  }

  lemma {:induction false} IndexBound(x: nat, y: nat, cols: nat, rows: nat)
    requires x < cols && y < rows
    ensures RowMajor(cols, x, y) < Cells(cols, rows)
  {
    if y > 0 {
      IndexBound(x, y - 1, cols, rows - 1);
    }
  }

  /** `to_idx`: the row-major index of an in-bounds coordinate. */
  function ToIdx(f: Forest, x: int, y: int): (idx: Option<nat>)
    ensures idx.Some? <==> 0 <= x < f.cols && 0 <= y < f.rows
    ensures idx.Some? ==> idx.value == RowMajor(f.cols, x, y)
    ensures idx.Some? && Valid(f) ==> idx.value < |f.heights|
  {
    if x < 0 || y < 0 || f.cols <= x || f.rows <= y then None
    else
      IndexBound(x, y, f.cols, f.rows);
      Some(RowMajor(f.cols, x, y))
  }

  /** The four walking directions, the unit vectors `[1, 0]`, `[-1, 0]`,
      `[0, 1]` and `[0, -1]`. */
  datatype Dir = Right | Left | Down | Up

  function DX(d: Dir): int {
    match d
    case Right => 1
    case Left => -1
    case _ => 0
  }

  function DY(d: Dir): int {
    match d
    case Down => 1
    case Up => -1
    case _ => 0
  }

  /** Column and row `k` steps from `(x, y)`. */
  function StepX(d: Dir, x: int, k: nat): int {
    match d
    case Right => x + k
    case Left => x - k
    case _ => x
  }

  function StepY(d: Dir, y: int, k: nat): int {
    match d
    case Down => y + k
    case Up => y - k
    case _ => y
  }

  /** Steps left before walking off the grid. */
  function Remaining(f: Forest, x: int, y: int, d: Dir): nat {
    if ToIdx(f, x, y).None? then 0
    else
      match d
      case Right => f.cols - x
      case Left => x + 1
      case Down => f.rows - y
      case Up => y + 1
  }

  /** `walk_indices`: the indices of `start`, `start + dir`,
      `start + 2 dir`, ... up to the first position off the grid (see
      `WalkAt`). */
  function Walk(f: Forest, x: int, y: int, d: Dir): (w: seq<nat>)
    ensures Valid(f) ==> InForest(f, w)
    decreases Remaining(f, x, y, d)
  {
    var idx := ToIdx(f, x, y);
    if idx.None? then [] else [idx.value] + Walk(f, x + DX(d), y + DY(d), d)
  }

  lemma WalkTail(f: Forest, x: int, y: int, d: Dir)
    requires ToIdx(f, x, y).Some?
    ensures Walk(f, x, y, d) == [ToIdx(f, x, y).value] + Walk(f, x + DX(d), y + DY(d), d)
  {
  }

  /** The walk visits `to_idx(start + k dir)` for `k = 0, 1, ...`, and
      stops at the first position off the grid. */
  predicate WalksAlong(f: Forest, x: int, y: int, d: Dir, w: seq<nat>) {
    && (forall k :: 0 <= k < |w| ==> ToIdx(f, StepX(d, x, k), StepY(d, y, k)) == Some(w[k]))
    && ToIdx(f, StepX(d, x, |w|), StepY(d, y, |w|)).None?
  }

  lemma WalksAlongStep(f: Forest, x: int, y: int, d: Dir, rest: seq<nat>)
    requires ToIdx(f, x, y).Some? && WalksAlong(f, x + DX(d), y + DY(d), d, rest)
    ensures WalksAlong(f, x, y, d, [ToIdx(f, x, y).value] + rest)
  {
    var w := [ToIdx(f, x, y).value] + rest;
    forall k | 0 <= k < |w|
      ensures ToIdx(f, StepX(d, x, k), StepY(d, y, k)) == Some(w[k])
    {
      if k > 0 {
        assert StepX(d, x + DX(d), k - 1) == StepX(d, x, k) && StepY(d, y + DY(d), k - 1) == StepY(d, y, k);
        assert w[k] == rest[k - 1];
      }
    }
    assert StepX(d, x + DX(d), |rest|) == StepX(d, x, |w|) && StepY(d, y + DY(d), |rest|) == StepY(d, y, |w|);
  }

  lemma {:induction false} WalkAt(f: Forest, x: int, y: int, d: Dir)
    ensures WalksAlong(f, x, y, d, Walk(f, x, y, d))
    decreases Remaining(f, x, y, d)
  {
    if ToIdx(f, x, y).Some? {
      WalkAt(f, x + DX(d), y + DY(d), d);
      WalkTail(f, x, y, d);
      WalksAlongStep(f, x, y, d, Walk(f, x + DX(d), y + DY(d), d));
    } else {
      assert Walk(f, x, y, d) == [];
    }
  }

  /** Every index of `w` is a cell of the forest. */
  predicate InForest(f: Forest, w: seq<nat>) {
    forall k :: 0 <= k < |w| ==> w[k] < |f.heights|
  }

  // ---------------------------------------------------------------------------
  // Scenic score

  /** The trees a tree of height `h` sees along the walk `w`: every tree
      up to and including the first at least as tall (`ViewAlongMeaning`). */
  function ViewAlong(f: Forest, h: nat, w: seq<nat>): nat
    requires InForest(f, w)
  {
    if w == [] then 0
    else if h <= f.heights[w[0]] then 1
    else 1 + ViewAlong(f, h, w[1..])
  }

  /** `r` trees are seen along `w` by a tree of height `h`: there are that
      many trees up to and including the first at least as tall, or up to
      the edge when there is none. */
  predicate Sees(f: Forest, h: nat, w: seq<nat>, r: nat)
    requires InForest(f, w)
  {
    && r <= |w| && (r == 0 <==> w == [])
    && (forall k :: 0 <= k < r - 1 ==> f.heights[w[k]] < h)
    && (0 < r < |w| ==> h <= f.heights[w[r - 1]])
  }

  lemma {:induction false} ViewAlongMeaning(f: Forest, h: nat, w: seq<nat>)
    requires InForest(f, w)
    ensures Sees(f, h, w, ViewAlong(f, h, w))
  {
    if w != [] && f.heights[w[0]] < h {
      ViewAlongMeaning(f, h, w[1..]);
      assert forall k :: 0 < k < |w| ==> w[1..][k - 1] == w[k];
    }
  }

  lemma ViewAlongCons(f: Forest, h: nat, i: nat, rest: seq<nat>)
    requires i < |f.heights| && InForest(f, rest)
    ensures InForest(f, [i] + rest)
    ensures ViewAlong(f, h, [i] + rest) == if h <= f.heights[i] then 1 else 1 + ViewAlong(f, h, rest)
  {
    assert ([i] + rest)[1..] == rest;
  }

  /** Viewing distance from `(x, y)` in one direction: what the tree sees
      along the walk that starts one step away. */
  function ViewingDistance(f: Forest, x: int, y: int, d: Dir): nat
    requires Valid(f) && ToIdx(f, x, y).Some?
  {
    ViewAlong(f, f.heights[ToIdx(f, x, y).value], Walk(f, x + DX(d), y + DY(d), d))
  }

  /** The viewing distance counts the trees up to and including the first
      at least as tall as the tree itself, or up to the edge. */
  lemma ViewingDistanceMeaning(f: Forest, x: int, y: int, d: Dir)
    requires Valid(f) && ToIdx(f, x, y).Some?
    ensures Sees(f, f.heights[ToIdx(f, x, y).value], Walk(f, x + DX(d), y + DY(d), d), ViewingDistance(f, x, y, d))
  {
    ViewAlongMeaning(f, f.heights[ToIdx(f, x, y).value], Walk(f, x + DX(d), y + DY(d), d));
  }

  /** The counting loop of `scenic_score` for one direction, walking
      `pos` as `walk_indices` does. */
  method TreesSeen(f: Forest, x: int, y: int, d: Dir) returns (treesSeen: nat)
    requires Valid(f) && ToIdx(f, x, y).Some?
    ensures treesSeen == ViewingDistance(f, x, y, d)
  {
    var thisHeight := f.heights[ToIdx(f, x, y).value];
    var w := Walk(f, x, y, d);
    WalkTail(f, x, y, d);
    treesSeen := 0;
    for k := 1 to |w|
      invariant ViewingDistance(f, x, y, d) == treesSeen + ViewAlong(f, thisHeight, w[k..])
    {
      ViewAlongCons(f, thisHeight, w[k], w[k + 1..]);
      assert [w[k]] + w[k + 1..] == w[k..];
      treesSeen := treesSeen + 1;
      var height := f.heights[w[k]];
      if thisHeight <= height {
        return;
      }
    }
  }

  /** `a * b` (`MulIsProduct`), as repeated addition. */
  function Mul(a: nat, b: nat): nat {
    if b == 0 then 0 else a + Mul(a, b - 1)
  }

  lemma {:induction false} MulIsProduct(a: nat, b: nat)
    ensures Mul(a, b) == a * b
  {
    if b > 0 {
      MulIsProduct(a, b - 1);
    }
  }

  lemma {:induction false} MulZero(b: nat)
    ensures Mul(0, b) == 0
  {
    if b > 0 {
      MulZero(b - 1);
    }
  }

  function Product(a: nat, b: nat, c: nat, d: nat): nat { Mul(Mul(Mul(a, b), c), d) }

  lemma ProductZero(a: nat, b: nat, c: nat, d: nat)
    requires a == 0 || b == 0 || c == 0 || d == 0
    ensures Product(a, b, c, d) == 0
  {
    MulZero(b);
    MulZero(c);
    MulZero(d);
  }

  /** The scenic score: the product of the four viewing distances. */
  function Scenic(f: Forest, x: int, y: int): nat
    requires Valid(f) && ToIdx(f, x, y).Some?
  {
    Product(ViewingDistance(f, x, y, Right), ViewingDistance(f, x, y, Left),
            ViewingDistance(f, x, y, Down), ViewingDistance(f, x, y, Up))
  }

  /** `scenic_score`. */
  method ScenicScore(f: Forest, x: int, y: int) returns (score: nat)
    requires Valid(f) && ToIdx(f, x, y).Some?
    ensures score == Scenic(f, x, y)
  {
    var right := TreesSeen(f, x, y, Right);
    var left := TreesSeen(f, x, y, Left);
    var down := TreesSeen(f, x, y, Down);
    var up := TreesSeen(f, x, y, Up);
    score := Product(right, left, down, up);
  }

  /** Looking straight off the grid, a tree sees nothing. */
  lemma EdgeView(f: Forest, x: int, y: int, d: Dir)
    requires Valid(f) && ToIdx(f, x, y).Some? && ToIdx(f, x + DX(d), y + DY(d)).None?
    ensures ViewingDistance(f, x, y, d) == 0
  {
  }

  /** A tree on the edge sees nothing in the direction of that edge, so its
      scenic score is 0. */
  lemma BorderScoresZero(f: Forest, x: nat, y: nat)
    requires Valid(f) && x < f.cols && y < f.rows
    requires x == 0 || x == f.cols - 1 || y == 0 || y == f.rows - 1
    ensures Scenic(f, x, y) == 0
  {
    if x == 0 {
      EdgeView(f, x, y, Left);
    } else if x == f.cols - 1 {
      EdgeView(f, x, y, Right);
    } else if y == 0 {
      EdgeView(f, x, y, Up);
    } else {
      EdgeView(f, x, y, Down);
    }
    ProductZero(ViewingDistance(f, x, y, Right), ViewingDistance(f, x, y, Left),
                ViewingDistance(f, x, y, Down), ViewingDistance(f, x, y, Up));
  }

  /** Part 2: the best scenic score; the forest must not be empty. */
  method Part2(f: Forest) returns (best: nat)
    requires Valid(f) && f.cols > 0 && f.rows > 0
    ensures exists x, y :: 0 <= x < f.cols && 0 <= y < f.rows && best == Scenic(f, x, y)
    ensures forall x, y :: 0 <= x < f.cols && 0 <= y < f.rows ==> Scenic(f, x, y) <= best
  {
    best := ScenicScore(f, 0, 0);
    ghost var bestX: nat, bestY: nat := 0, 0;
    for x := 0 to f.cols
      invariant bestX < f.cols && bestY < f.rows && best == Scenic(f, bestX, bestY)
      invariant forall x', y' :: 0 <= x' < x && 0 <= y' < f.rows ==> Scenic(f, x', y') <= best
    {
      var columnBest, columnY := ColumnBest(f, x, best);
      if columnBest != best {
        bestX, bestY := x, columnY;
      }
      best := columnBest;
    }
  }

  /** The scores of column `x`, taken in row order after a best score so
      far of `best0`. */
  method ColumnBest(f: Forest, x: nat, best0: nat) returns (best: nat, ghost bestY: nat)
    requires Valid(f) && x < f.cols && f.rows > 0
    ensures best0 <= best && (best == best0 || (bestY < f.rows && best == Scenic(f, x, bestY)))
    ensures forall y :: 0 <= y < f.rows ==> Scenic(f, x, y) <= best
  {
    best, bestY := best0, 0;
    for y := 0 to f.rows
      invariant best0 <= best && (best == best0 || (bestY < f.rows && best == Scenic(f, x, bestY)))
      invariant forall y' :: 0 <= y' < y ==> Scenic(f, x, y') <= best
    {
      var score := ScenicScore(f, x, y);
      if best < score {
        best, bestY := score, y;
      }
    }
  }

  // ---------------------------------------------------------------------------
  // Visibility from the edges

  /** The trees a pass along `w` marks when the tallest tree seen so far
      on the pass has height `above`. */
  function PassAlong(f: Forest, w: seq<nat>, above: int): (marks: set<nat>)
    requires InForest(f, w)
    ensures forall i :: i in marks ==> i < |f.heights|
  {
    if w == [] then {}
    else if above < f.heights[w[0]] then {w[0]} + PassAlong(f, w[1..], f.heights[w[0]])
    else PassAlong(f, w[1..], above)
  }

  lemma PassAlongCons(f: Forest, i: nat, rest: seq<nat>, above: int)
    requires i < |f.heights| && InForest(f, rest)
    ensures InForest(f, [i] + rest)
    ensures PassAlong(f, [i] + rest, above) ==
      if above < f.heights[i] then {i} + PassAlong(f, rest, f.heights[i]) else PassAlong(f, rest, above)
  {
    assert ([i] + rest)[1..] == rest;
  }

  /** The trees marked by one visibility pass from `(x, y)`: the first
      tree is always marked (see `PassMarksAreRecords`). */
  function PassMarks(f: Forest, x: int, y: int, d: Dir): (marks: set<nat>)
    requires Valid(f)
    ensures forall i :: i in marks ==> i < |f.heights|
  {
    PassAlong(f, Walk(f, x, y, d), -1)
  }

  /** Passes along the first `n` rows, from both ends. */
  function RowPasses(f: Forest, n: nat): (marks: set<nat>)
    requires Valid(f) && f.cols > 0
    ensures forall i :: i in marks ==> i < |f.heights|
  {
    if n == 0 then {}
    else RowPasses(f, n - 1) + PassMarks(f, 0, n - 1, Right) + PassMarks(f, f.cols - 1, n - 1, Left)
  }

  /** Passes along the first `n` columns, from both ends. */
  function ColPasses(f: Forest, n: nat): (marks: set<nat>)
    requires Valid(f) && f.rows > 0
    ensures forall i :: i in marks ==> i < |f.heights|
  {
    if n == 0 then {}
    else ColPasses(f, n - 1) + PassMarks(f, n - 1, 0, Down) + PassMarks(f, n - 1, f.rows - 1, Up)
  }

  function VisibleTrees(f: Forest): set<nat>
    requires Valid(f) && f.cols > 0 && f.rows > 0
  {
    RowPasses(f, f.rows) + ColPasses(f, f.cols)
  }

  /** `make_pass`: marks the first tree, then every tree strictly taller
      than the tallest seen so far on this pass. */
  method MakePass(f: Forest, visible: array<bool>, x: int, y: int, d: Dir)
    requires Valid(f) && visible.Length == |f.heights| && ToIdx(f, x, y).Some?
    modifies visible
    ensures forall i :: 0 <= i < visible.Length ==> visible[i] == (old(visible[i]) || i in PassMarks(f, x, y, d))
  {
    var w := Walk(f, x, y, d);
    WalkTail(f, x, y, d);
    var idx := w[0];
    PassAlongCons(f, idx, w[1..], -1);
    assert [idx] + w[1..] == w;
    visible[idx] := true;
    var visibleAbove := f.heights[idx];
    for k := 1 to |w|
      invariant forall i :: 0 <= i < visible.Length ==>
        (visible[i] || i in PassAlong(f, w[k..], visibleAbove)) == (old(visible[i]) || i in PassMarks(f, x, y, d))
    {
      idx := w[k];
      PassAlongCons(f, idx, w[k + 1..], visibleAbove);
      assert [idx] + w[k + 1..] == w[k..];
      var height := f.heights[idx];
      if visibleAbove < height {
        visibleAbove := height;
        visible[idx] := true;
      }
    }
  }

  method RowsPasses(f: Forest, visible: array<bool>)
    requires Valid(f) && f.cols > 0 && visible.Length == |f.heights|
    requires forall j :: 0 <= j < visible.Length ==> !visible[j]
    modifies visible
    ensures forall j :: 0 <= j < visible.Length ==> visible[j] == (j in RowPasses(f, f.rows))
  {
    for i := 0 to f.rows
      invariant forall j :: 0 <= j < visible.Length ==> visible[j] == (j in RowPasses(f, i))
    {
      MakePass(f, visible, 0, i, Right);
      MakePass(f, visible, f.cols - 1, i, Left);
    }
  }

  method ColsPasses(f: Forest, visible: array<bool>)
    requires Valid(f) && f.cols > 0 && f.rows > 0 && visible.Length == |f.heights|
    modifies visible
    ensures forall j :: 0 <= j < visible.Length ==> visible[j] == (old(visible[j]) || j in ColPasses(f, f.cols))
  {
    for i := 0 to f.cols
      invariant forall j :: 0 <= j < visible.Length ==> visible[j] == (old(visible[j]) || j in ColPasses(f, i))
    {
      MakePass(f, visible, i, 0, Down);
      MakePass(f, visible, i, f.rows - 1, Up);
    }
  }

  /** Counts the marked trees. */
  method CountMarked(visible: array<bool>) returns (count: nat)
    ensures count == |set i | 0 <= i < visible.Length && visible[i]|
  {
    count := 0;
    for n := 0 to visible.Length
      invariant count == |set i | 0 <= i < n && visible[i]|
    {
      ghost var before := set i | 0 <= i < n && visible[i];
      if visible[n] {
        assert (set i | 0 <= i < n + 1 && visible[i]) == before + {n};
        count := count + 1;
      } else {
        assert (set i | 0 <= i < n + 1 && visible[i]) == before;
      }
    }
  }

  /** Part 1: the number of trees visible from outside the grid, marked by
      a pass along every row and column from both ends.  The forest must
      not be empty (the first step of an empty pass panics). */
  method Part1(f: Forest) returns (count: nat)
    requires Valid(f) && f.cols > 0 && f.rows > 0
    ensures count == |VisibleTrees(f)|
  {
    var visible := new bool[|f.heights|](_ => false);
    RowsPasses(f, visible);
    ColsPasses(f, visible);
    count := CountMarked(visible);
    assert (set i | 0 <= i < visible.Length && visible[i]) == VisibleTrees(f);
  }

  // The marks of a pass, stated on the walk.

  /** Position `k` of the walk is strictly taller than every earlier one
      (vacuously so for the first). */
  predicate TallerThanBefore(f: Forest, w: seq<nat>, k: nat)
    requires k < |w| && InForest(f, w)
  {
    forall j :: 0 <= j < k ==> f.heights[w[j]] < f.heights[w[k]]
  }

  /** Position `k` of the walk is a new record above `above`. */
  predicate IsRecord(f: Forest, w: seq<nat>, above: int, k: nat)
    requires k < |w| && InForest(f, w)
  {
    above < f.heights[w[k]] && TallerThanBefore(f, w, k)
  }

  lemma RecordShift(f: Forest, i: nat, rest: seq<nat>, above: int, k: nat)
    requires i < |f.heights| && InForest(f, rest)
    requires 0 < k <= |rest|
    ensures var w := [i] + rest;
      var next := if above < f.heights[i] then f.heights[i] else above;
      IsRecord(f, w, above, k) <==> IsRecord(f, rest, next, k - 1)
  {
    var w := [i] + rest;
    assert forall j :: 0 < j <= |rest| ==> w[j] == rest[j - 1];
    assert w[0] == i;
    var top := f.heights[rest[k - 1]];
    if TallerThanBefore(f, w, k) {
      forall j | 0 <= j < k - 1
        ensures f.heights[rest[j]] < top
      {
        assert w[j + 1] == rest[j];
      }
    }
    if f.heights[i] < top && TallerThanBefore(f, rest, k - 1) {
      forall j | 0 <= j < k
        ensures f.heights[w[j]] < top
      {
        if j > 0 {
          assert w[j] == rest[j - 1];
        }
      }
    }
  }

  lemma {:induction false} PassAlongRecords(f: Forest, w: seq<nat>, above: int)
    requires InForest(f, w)
    ensures forall i :: i in PassAlong(f, w, above) <==> exists k :: 0 <= k < |w| && w[k] == i && IsRecord(f, w, above, k)
  {
    if w != [] {
      var rest := w[1..];
      var h := f.heights[w[0]];
      var next := if above < h then h else above;
      assert w == [w[0]] + rest;
      PassAlongRecords(f, rest, next);
      PassAlongCons(f, w[0], rest, above);
      forall i
        ensures i in PassAlong(f, w, above) <==> exists k :: 0 <= k < |w| && w[k] == i && IsRecord(f, w, above, k)
      {
        if i in PassAlong(f, w, above) {
          if above < h && i == w[0] {
            assert IsRecord(f, w, above, 0);
          } else {
            var k :| 0 <= k < |rest| && rest[k] == i && IsRecord(f, rest, next, k);
            RecordShift(f, w[0], rest, above, k + 1);
            assert w[k + 1] == i;
          }
        }
        if exists k :: 0 <= k < |w| && w[k] == i && IsRecord(f, w, above, k) {
          var k :| 0 <= k < |w| && w[k] == i && IsRecord(f, w, above, k);
          if k > 0 {
            RecordShift(f, w[0], rest, above, k);
            assert rest[k - 1] == i;
          }
        }
      }
    }
  }

  /** Tree `i` stands on the walk `w` strictly taller than every tree
      before it there. */
  predicate RecordOf(f: Forest, w: seq<nat>, i: nat)
    requires InForest(f, w)
  {
    exists k :: 0 <= k < |w| && w[k] == i && TallerThanBefore(f, w, k)
  }

  /** A pass marks the first tree of its walk and each later tree strictly
      taller than every tree before it on the walk. */
  lemma PassMarksAreRecords(f: Forest, x: int, y: int, d: Dir)
    requires Valid(f)
    ensures forall i :: i in PassMarks(f, x, y, d) <==> RecordOf(f, Walk(f, x, y, d), i)
  {
    var w := Walk(f, x, y, d);
    PassAlongRecords(f, w, -1);
    forall i
      ensures i in PassMarks(f, x, y, d) <==> RecordOf(f, w, i)
    {
      if i in PassMarks(f, x, y, d) {
        var k :| 0 <= k < |w| && w[k] == i && IsRecord(f, w, -1, k);
      }
      if RecordOf(f, w, i) {
        var k :| 0 <= k < |w| && w[k] == i && TallerThanBefore(f, w, k);
        assert IsRecord(f, w, -1, k);
      }
    }
  }

  lemma FirstIsMarked(f: Forest, x: int, y: int, d: Dir)
    requires Valid(f) && ToIdx(f, x, y).Some?
    ensures ToIdx(f, x, y).value in PassMarks(f, x, y, d)
  {
  }

  lemma {:induction false} RowPassesGrow(f: Forest, n: nat, r: nat)
    requires Valid(f) && f.cols > 0 && r < n
    ensures PassMarks(f, 0, r, Right) <= RowPasses(f, n)
    ensures PassMarks(f, f.cols - 1, r, Left) <= RowPasses(f, n)
  {
    if r < n - 1 {
      RowPassesGrow(f, n - 1, r);
    }
  }

  lemma {:induction false} ColPassesGrow(f: Forest, n: nat, c: nat)
    requires Valid(f) && f.rows > 0 && c < n
    ensures PassMarks(f, c, 0, Down) <= ColPasses(f, n)
    ensures PassMarks(f, c, f.rows - 1, Up) <= ColPasses(f, n)
  {
    if c < n - 1 {
      ColPassesGrow(f, n - 1, c);
    }
  }

  /** Every tree on the edge of the grid is visible. */
  lemma BorderIsVisible(f: Forest, x: nat, y: nat)
    requires Valid(f) && x < f.cols && y < f.rows
    requires x == 0 || x == f.cols - 1 || y == 0 || y == f.rows - 1
    ensures ToIdx(f, x, y).value in VisibleTrees(f)
  {
    if x == 0 {
      FirstIsMarked(f, x, y, Right);
      RowPassesGrow(f, f.rows, y);
    } else if x == f.cols - 1 {
      FirstIsMarked(f, x, y, Left);
      RowPassesGrow(f, f.rows, y);
    } else if y == 0 {
      FirstIsMarked(f, x, y, Down);
      ColPassesGrow(f, f.cols, x);
    } else {
      FirstIsMarked(f, x, y, Up);
      ColPassesGrow(f, f.cols, x);
    }
  }
}
