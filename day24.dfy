/** Day 24: blizzard basin.  A rectangular valley is swept by winds, each
    blowing one step per minute in its direction and wrapping round at the
    walls.  The expedition enters at the gap above the top-left cell, leaves
    through the gap below the bottom-right cell, and may move to a
    neighbouring cell or stay put each minute, as long as no wind occupies
    the place it ends up in.  The winds repeat after lcm(width, height)
    minutes, so the search runs over (position, phase) pairs. */
module Day24 {
  import opened Common
  import Bfs

  /** One flag of a cell.  `Wall` is what lies outside the valley. */
  datatype Wind = Up | Down | Left | Right | Wall

  /** `WindFlags`: the set of flags of one place. */
  type WindFlags = set<Wind>

  /** The winds that blow, in the order of their bits. */
  const Blowing: seq<Wind> := [Up, Down, Left, Right]

  function Rank(wd: Wind): (r: nat)
    requires wd != Wall
    ensures r < |Blowing| && Blowing[r] == wd
  {
    match wd
    case Up => 0
    case Down => 1
    case Left => 2
    case Right => 3
  }

  function Opposite(wd: Wind): (o: Wind)
    requires wd != Wall
    ensures o != Wall && o != wd
  {
    match wd
    case Up => Down
    case Down => Up
    case Left => Right
    case Right => Left
  }

  datatype Coord = Coord(x: int, y: int)

  /** The valley: `width * height` cells stored row by row. */
  datatype WindState = WindState(width: nat, height: nat, cells: seq<WindFlags>)

  /** One cell per coordinate of the valley and no wall inside it, as the
      generator builds it and as `advance` needs it (it panics on a wall). */
  predicate WellFormed(s: WindState) {
    && |s.cells| == s.width * s.height
    && forall j :: 0 <= j < |s.cells| ==> Wall !in s.cells[j]
  }

  predicate Inside(s: WindState, c: Coord) {
    0 <= c.x < s.width && 0 <= c.y < s.height
  }

  lemma IdxBound(x: nat, y: nat, w: nat, h: nat)
    requires x < w && y < h
    ensures x + y * w < w * h
  {
    MulMonotone(y, h - 1, w);
    assert (h - 1) * w == h * w - w;
  }

  /** `WindState::coord_to_idx`: the row-major index of a cell of the
      valley, and nothing for a place outside it. */
  function CoordToIdx(s: WindState, c: Coord): (r: Option<nat>)
    ensures r.Some? <==> Inside(s, c)
    ensures r.Some? ==> r.value < s.width * s.height
  {
    if c.x < 0 || s.width <= c.x || c.y < 0 || s.height <= c.y then None
    else
      MulNonNegative(c.y, s.width);
      IdxBound(c.x, c.y, s.width, s.height);
      Some(c.x + c.y * s.width)
  }

  /** The cell a row-major index stands for. */
  function CoordOf(s: WindState, j: nat): Coord
    requires s.width > 0
  {
    Coord(j % s.width, j / s.width)
  }

  lemma NonEmptyGrid(s: WindState)
    requires WellFormed(s) && |s.cells| > 0
    ensures s.width > 0 && s.height > 0
  {
  }

  /** Indices and cells of the valley correspond one to one. */
  lemma IdxRoundTrip(s: WindState, c: Coord, j: nat)
    requires s.width > 0
    ensures Inside(s, c) ==> CoordOf(s, CoordToIdx(s, c).value) == c
    ensures j < s.width * s.height ==> Inside(s, CoordOf(s, j)) && CoordToIdx(s, CoordOf(s, j)) == Some(j)
  {
    if Inside(s, c) {
      CoordOfIdx(s, c);
    }
    if j < s.width * s.height {
      IdxOfCoord(s, j);
    }
  }

  lemma CoordOfIdx(s: WindState, c: Coord)
    requires s.width > 0 && Inside(s, c)
    ensures CoordOf(s, CoordToIdx(s, c).value) == c
  {
    DivUnique(c.x + c.y * s.width, s.width, c.y, c.x);
  }

  lemma IdxOfCoord(s: WindState, j: nat)
    requires s.width > 0 && j < s.width * s.height
    ensures Inside(s, CoordOf(s, j)) && CoordToIdx(s, CoordOf(s, j)) == Some(j)
  {
    var q, r := j / s.width, j % s.width;
    assert j == r + q * s.width;
    if q >= s.height {
      MulMonotone(s.height, q, s.width);
    }
  }

  /** The gap the expedition enters by. */
  function StartPosition(s: WindState): Coord {
    Coord(0, -1)
  }

  /** The gap the expedition leaves by. */
  function EndPosition(s: WindState): Coord {
    Coord(s.width - 1, s.height)
  }

  /** `Index<Coord> for WindState`: the flags of any place. */
  function Index(s: WindState, c: Coord): WindFlags
    requires |s.cells| == s.width * s.height
  {
    match CoordToIdx(s, c)
    case Some(idx) => s.cells[idx]
    case None => if c == StartPosition(s) || c == EndPosition(s) then {} else {Wall}
  }

  /** The wall covers exactly the places outside the valley other than the
      two gaps; the gaps are always free and the valley shows its cells. */
  lemma WallsSurround(s: WindState, c: Coord)
    requires WellFormed(s)
    ensures Wall in Index(s, c) <==> !Inside(s, c) && c != StartPosition(s) && c != EndPosition(s)
    ensures !Inside(s, c) ==> Index(s, c) == {} || Index(s, c) == {Wall}
    ensures Inside(s, c) ==> Index(s, c) == s.cells[c.x + c.y * s.width]
    ensures c == StartPosition(s) || c == EndPosition(s) ==> Index(s, c) == {}
  {
  }

  /** `WindState::period`. */
  function Period(s: WindState): nat {
    Lcm(s.width, s.height)
  }

  /** Where one wind in cell `c` blows to in a minute (the `match` in
      `advance`): one step in its direction, wrapping round to the far side
      of the valley. */
  function Blow(s: WindState, c: Coord, wd: Wind): Coord
    requires wd != Wall
  {
    match wd
    case Up => if 0 < c.y then Coord(c.x, c.y - 1) else Coord(c.x, s.height - 1)
    case Down => if c.y < s.height - 1 then Coord(c.x, c.y + 1) else Coord(c.x, 0)
    case Left => if 0 < c.x then Coord(c.x - 1, c.y) else Coord(s.width - 1, c.y)
    case Right => if c.x < s.width - 1 then Coord(c.x + 1, c.y) else Coord(0, c.y)
  }

  /** Blowing stays inside the valley, and blowing the opposite way undoes
      it. */
  lemma BlowBack(s: WindState, c: Coord, wd: Wind)
    requires wd != Wall && Inside(s, c)
    ensures Inside(s, Blow(s, c, wd))
    ensures Blow(s, Blow(s, c, wd), Opposite(wd)) == c
    ensures Blow(s, Blow(s, c, Opposite(wd)), wd) == c
  {
  }

  /** Blowing is a step of one modulo the side of the valley. */
  lemma BlowWraps(s: WindState, c: Coord, wd: Wind)
    requires wd != Wall && Inside(s, c)
    ensures wd == Up ==> Blow(s, c, wd) == Coord(c.x, (c.y - 1) % s.height)
    ensures wd == Down ==> Blow(s, c, wd) == Coord(c.x, (c.y + 1) % s.height)
    ensures wd == Left ==> Blow(s, c, wd) == Coord((c.x - 1) % s.width, c.y)
    ensures wd == Right ==> Blow(s, c, wd) == Coord((c.x + 1) % s.width, c.y)
  {
    match wd
    case Up => DivUnique(c.y - 1, s.height, if 0 < c.y then 0 else -1, Blow(s, c, wd).y);
    case Down => DivUnique(c.y + 1, s.height, if c.y < s.height - 1 then 0 else 1, Blow(s, c, wd).y);
    case Left => DivUnique(c.x - 1, s.width, if 0 < c.x then 0 else -1, Blow(s, c, wd).x);
    case Right => DivUnique(c.x + 1, s.width, if c.x < s.width - 1 then 0 else 1, Blow(s, c, wd).x);
  }

  // ---------------------------------------------------------------------------
  // One minute of wind

  /** The cell from which a wind of kind `wd` reaches cell `j` in a minute. */
  function Source(s: WindState, j: nat, wd: Wind): Coord
    requires wd != Wall && s.width > 0
  {
    Blow(s, CoordOf(s, j), Opposite(wd))
  }

  /** The flags of cell `j` a minute later: every wind whose source cell
      carried it. */
  function Arrivals(s: WindState, j: nat): WindFlags
    requires WellFormed(s) && j < |s.cells|
  {
    NonEmptyGrid(s);
    set wd | wd in Blowing && wd in Index(s, Source(s, j, wd))
  }

  /** The valley a minute later, cell by cell. */
  function Advanced(s: WindState): (t: WindState)
    requires WellFormed(s)
    ensures WellFormed(t) && t.width == s.width && t.height == s.height
  {
    WindState(s.width, s.height, seq(|s.cells|, j requires 0 <= j < |s.cells| => Arrivals(s, j)))
  }

  /** `advance` visits the cells column by column (`x` outer, `y` inner) and
      the winds of a cell in the order of their bits: the wind of rank `r` in
      cell `c` has been moved once the loops are past it. */
  predicate Visited(c: Coord, r: nat, x: int, y: int, k: nat) {
    c.x < x || (c.x == x && (c.y < y || (c.y == y && r < k)))
  }

  /** What `new_cells[j]` holds once the loops of `advance` have reached
      wind `k` of cell (x, y). */
  function Partial(s: WindState, j: nat, x: int, y: int, k: nat): WindFlags
    requires WellFormed(s) && j < |s.cells|
  {
    NonEmptyGrid(s);
    set wd | wd in Blowing && Visited(Source(s, j, wd), Rank(wd), x, y, k) && wd in Index(s, Source(s, j, wd))
  }

  /** The source cell of a wind is in the valley, and it is the cell whose
      wind blows into `j`. */
  lemma SourceInside(s: WindState, j: nat, wd: Wind, c: Coord)
    requires WellFormed(s) && j < |s.cells| && wd != Wall && Inside(s, c)
    ensures s.width > 0 && Inside(s, Source(s, j, wd))
    ensures Source(s, j, wd) == c <==> CoordToIdx(s, Blow(s, c, wd)) == Some(j)
  {
    NonEmptyGrid(s);
    IdxRoundTrip(s, Coord(0, 0), j);
    var cj := CoordOf(s, j);
    BlowBack(s, cj, Opposite(wd));
    BlowBack(s, c, wd);
    BlowBack(s, cj, wd);
    var b := Blow(s, c, wd);
    IdxRoundTrip(s, b, 0);
    if Source(s, j, wd) == c {
      assert b == cj;
    }
    if CoordToIdx(s, b) == Some(j) {
      assert b == cj;
    }
  }

  /** Moving wind `k` of cell (x, y), when the cell has it. */
  lemma PartialStep(s: WindState, j: nat, x: int, y: int, k: nat)
    requires WellFormed(s) && j < |s.cells| && Inside(s, Coord(x, y)) && k < |Blowing|
    ensures
      var c, wd := Coord(x, y), Blowing[k];
      Partial(s, j, x, y, k + 1) ==
        if wd in Index(s, c) && CoordToIdx(s, Blow(s, c, wd)) == Some(j) then Partial(s, j, x, y, k) + {wd}
        else Partial(s, j, x, y, k)
  {
    var c, wd := Coord(x, y), Blowing[k];
    SourceInside(s, j, wd, c);
    forall w | w in Blowing
      ensures Visited(Source(s, j, w), Rank(w), x, y, k + 1) <==>
        Visited(Source(s, j, w), Rank(w), x, y, k) || (w == wd && Source(s, j, wd) == c)
    {
    }
  }

  /** Passing from the last wind of a cell to the next cell of the column,
      and from the end of a column to the next column. */
  lemma PartialNext(s: WindState, j: nat, x: int, y: int)
    requires WellFormed(s) && j < |s.cells|
    ensures Partial(s, j, x, y, |Blowing|) == Partial(s, j, x, y + 1, 0)
    ensures Partial(s, j, x, s.height, 0) == Partial(s, j, x + 1, 0, 0)
  {
    forall w | w in Blowing ensures Inside(s, Source(s, j, w)) {
      SourceInside(s, j, w, Coord(0, 0));
    }
  }

  /** Once every column has been visited, every wind has arrived. */
  lemma PartialDone(s: WindState, j: nat)
    requires WellFormed(s) && j < |s.cells|
    ensures Partial(s, j, s.width, 0, 0) == Arrivals(s, j)
    ensures Partial(s, j, 0, 0, 0) == {}
  {
    forall w | w in Blowing ensures Inside(s, Source(s, j, w)) {
      SourceInside(s, j, w, Coord(0, 0));
    }
  }

  /** `WindState::advance`: every wind of every cell is added to the cell it
      blows to. */
  method Advance(s: WindState) returns (t: WindState)
    requires WellFormed(s)
    ensures t == Advanced(s)
  {
    var newCells := new WindFlags[|s.cells|](_ => {});
    forall j | 0 <= j < newCells.Length ensures newCells[j] == Partial(s, j, 0, 0, 0) {
      PartialDone(s, j);
    }
    for x := 0 to s.width
      invariant forall j :: 0 <= j < newCells.Length ==> newCells[j] == Partial(s, j, x, 0, 0)
    {
      for y := 0 to s.height
        invariant forall j :: 0 <= j < newCells.Length ==> newCells[j] == Partial(s, j, x, y, 0)
      {
        var here := Index(s, Coord(x, y));
        for k := 0 to |Blowing|
          invariant forall j :: 0 <= j < newCells.Length ==> newCells[j] == Partial(s, j, x, y, k)
        {
          var wind := Blowing[k];
          forall j | 0 <= j < newCells.Length {
            PartialStep(s, j, x, y, k);
          }
          if wind in here {
            BlowBack(s, Coord(x, y), wind);
            var idx := CoordToIdx(s, Blow(s, Coord(x, y), wind)).value;
            newCells[idx] := newCells[idx] + {wind};
          }
        }
        forall j | 0 <= j < newCells.Length {
          PartialNext(s, j, x, y);
        }
      }
      forall j | 0 <= j < newCells.Length {
        PartialNext(s, j, x, s.height);
      }
    }
    forall j | 0 <= j < newCells.Length ensures newCells[j] == Arrivals(s, j) {
      PartialDone(s, j);
    }
    t := WindState(s.width, s.height, newCells[..]);
  }

  // ---------------------------------------------------------------------------
  // What a minute of wind does

  /** Every wind of a cell reaches the cell it blows to, and every wind of a
      cell came from the cell the opposite way; a cell never holds a wall. */
  lemma AdvancedMoves(s: WindState, c: Coord, wd: Wind)
    requires WellFormed(s) && Inside(s, c) && wd != Wall
    ensures wd in Index(Advanced(s), Blow(s, c, wd)) <==> wd in Index(s, c)
    ensures wd in Index(Advanced(s), c) <==> wd in Index(s, Blow(s, c, Opposite(wd)))
    ensures Wall !in Index(Advanced(s), c)
  {
    var b := Blow(s, c, wd);
    BlowBack(s, c, wd);
    IdxRoundTrip(s, c, 0);
    IdxRoundTrip(s, b, 0);
  }

  /** Outside the valley a minute changes nothing: the gaps stay free and
      the wall stays. */
  lemma AdvancedOutside(s: WindState, c: Coord)
    requires WellFormed(s) && !Inside(s, c)
    ensures Index(Advanced(s), c) == Index(s, c)
  {
  }

  /** The cells carrying a wind of kind `wd`. */
  function Carrying(s: WindState, wd: Wind): set<nat> {
    set j | 0 <= j < |s.cells| && wd in s.cells[j]
  }

  /** The cell the wind of kind `wd` in cell `j` blows to. */
  function Downwind(s: WindState, wd: Wind, j: nat): (d: nat)
    requires WellFormed(s) && wd != Wall && j < |s.cells|
    ensures d < |s.cells|
  {
    NonEmptyGrid(s);
    IdxRoundTrip(s, Coord(0, 0), j);
    BlowBack(s, CoordOf(s, j), wd);
    CoordToIdx(s, Blow(s, CoordOf(s, j), wd)).value
  }

  lemma DownwindMeaning(s: WindState, wd: Wind, j: nat)
    requires WellFormed(s) && wd != Wall && j < |s.cells|
    ensures wd in Advanced(s).cells[Downwind(s, wd, j)] <==> wd in s.cells[j]
    ensures s.width > 0 && CoordOf(s, Downwind(s, wd, j)) == Blow(s, CoordOf(s, j), wd)
  {
    NonEmptyGrid(s);
    IdxRoundTrip(s, Coord(0, 0), j);
    var c := CoordOf(s, j);
    BlowBack(s, c, wd);
    IdxRoundTrip(s, Blow(s, c, wd), 0);
    AdvancedMoves(s, c, wd);
  }

  /** Different cells blow their winds of one kind to different cells. */
  lemma DownwindInjective(s: WindState, wd: Wind, a: nat, b: nat)
    requires WellFormed(s) && wd != Wall && a < |s.cells| && b < |s.cells|
    requires Downwind(s, wd, a) == Downwind(s, wd, b)
    ensures a == b
  {
    DownwindMeaning(s, wd, a);
    DownwindMeaning(s, wd, b);
    var ca, cb := CoordOf(s, a), CoordOf(s, b);
    IdxRoundTrip(s, Coord(0, 0), a);
    IdxRoundTrip(s, Coord(0, 0), b);
    BlowBack(s, ca, wd);
    BlowBack(s, cb, wd);
    assert Blow(s, ca, wd) == Blow(s, cb, wd);
    assert ca == cb;
  }

  /** Every cell carrying a wind after a minute got it from the cell
      upwind. */
  lemma DownwindOnto(s: WindState, wd: Wind, j: nat)
    requires WellFormed(s) && wd != Wall && j < |s.cells| && wd in Advanced(s).cells[j]
    ensures exists a :: 0 <= a < |s.cells| && wd in s.cells[a] && Downwind(s, wd, a) == j
  {
    NonEmptyGrid(s);
    IdxRoundTrip(s, Coord(0, 0), j);
    var c := CoordOf(s, j);
    var src := Blow(s, c, Opposite(wd));
    BlowBack(s, c, Opposite(wd));
    AdvancedMoves(s, c, wd);
    IdxRoundTrip(s, src, 0);
    var a := CoordToIdx(s, src).value;
    DownwindMeaning(s, wd, a);
    assert CoordOf(s, Downwind(s, wd, a)) == c;
    IdxRoundTrip(s, c, 0);
  }

  /** A minute of wind keeps the number of cells carrying each kind of
      wind. */
  lemma AdvanceKeepsCount(s: WindState, wd: Wind)
    requires WellFormed(s) && wd != Wall
    ensures |Carrying(Advanced(s), wd)| == |Carrying(s, wd)|
  {
    var before, after := Carrying(s, wd), Carrying(Advanced(s), wd);
    var f := (j: nat) => if j < |s.cells| then Downwind(s, wd, j) else 0;
    forall a, b | a in before && b in before && f(a) == f(b) ensures a == b {
      DownwindInjective(s, wd, a, b);
    }
    ImageCard(before, f);
    var image := Image(before, f);
    forall j | j in image ensures j in after {
      var a :| a in before && f(a) == j;
      DownwindMeaning(s, wd, a);
    }
    forall j | j in after ensures j in image {
      DownwindOnto(s, wd, j);
      var a :| 0 <= a < |s.cells| && wd in s.cells[a] && Downwind(s, wd, a) == j;
      assert a in before && f(a) == j;
    }
    assert image == after;
  }

  // ---------------------------------------------------------------------------
  // Many minutes of wind

  /** A minute of wind, on any state (a malformed one stays as it is). */
  function Minute(s: WindState): WindState {
    if WellFormed(s) then Advanced(s) else s
  }

  /** `n` applications of `step`. */
  ghost function Iterate(step: WindState -> WindState, s: WindState, n: nat): WindState
    decreases n, 0
  {
    if n == 0 then s else step(IterateTo(step, s, n - 1))
  }

  /** `Iterate` again, as a separate function so that the verifier unfolds
      one step of an iteration at a time. */
  ghost function IterateTo(step: WindState -> WindState, s: WindState, n: nat): WindState
    decreases n, 1
  {
    Iterate(step, s, n)
  }

  /** The valley after `n` minutes. */
  ghost function AdvanceN(s: WindState, n: nat): WindState {
    Iterate(Minute, s, n)
  }

  /** What the proofs below need of a minute: it keeps the valley well
      formed and of the same size, and moves every wind one cell. */
  ghost predicate MovesWinds(step: WindState -> WindState) {
    forall t {:trigger step(t)} :: WellFormed(t) ==>
      && WellFormed(step(t)) && step(t).width == t.width && step(t).height == t.height
      && forall c, wd {:trigger MovedFrom(t, step(t), c, wd)} :: Inside(t, c) && wd != Wall ==> MovedFrom(t, step(t), c, wd)
  }

  /** A wind of kind `wd` is in cell `c` of `u` exactly when it was one
      cell against the wind in `t`. */
  ghost predicate MovedFrom(t: WindState, u: WindState, c: Coord, wd: Wind)
    requires |t.cells| == t.width * t.height && |u.cells| == u.width * u.height && wd != Wall
  {
    wd in Index(u, c) <==> wd in Index(t, Blow(t, c, Opposite(wd)))
  }

  lemma MinuteMovesWinds()
    ensures MovesWinds(Minute)
  {
    forall t | WellFormed(t)
      ensures forall c, wd {:trigger MovedFrom(t, Minute(t), c, wd)} :: Inside(t, c) && wd != Wall ==> MovedFrom(t, Minute(t), c, wd)
    {
      forall c, wd | Inside(t, c) && wd != Wall
        ensures MovedFrom(t, Minute(t), c, wd)
      {
        AdvancedMoves(t, c, wd);
      }
    }
  }

  lemma {:induction false} IterateWellFormed(step: WindState -> WindState, s: WindState, n: nat)
    requires MovesWinds(step) && WellFormed(s)
    ensures var t := Iterate(step, s, n); WellFormed(t) && t.width == s.width && t.height == s.height
  {
    if n > 0 {
      IterateWellFormed(step, s, n - 1);
      assert IterateTo(step, s, n - 1) == Iterate(step, s, n - 1);
    }
  }

  /** The cell `n` steps against wind `wd` from `c`. */
  function Upwind(s: WindState, c: Coord, wd: Wind, n: nat): Coord
    requires wd != Wall
    decreases n
  {
    if n == 0 then c else Upwind(s, Blow(s, c, Opposite(wd)), wd, n - 1)
  }

  /** Where the wind of kind `wd` in cell `c` was `n` minutes earlier,
      in closed form: `n` cells upwind, modulo the side of the valley. */
  function UpwindAt(s: WindState, c: Coord, wd: Wind, n: nat): Coord
    requires wd != Wall && s.width > 0 && s.height > 0
  {
    match wd
    case Up => Coord(c.x, (c.y + n) % s.height)
    case Down => Coord(c.x, (c.y - n) % s.height)
    case Left => Coord((c.x + n) % s.width, c.y)
    case Right => Coord((c.x - n) % s.width, c.y)
  }

  lemma {:induction false} UpwindIsModular(s: WindState, c: Coord, wd: Wind, n: nat)
    requires Inside(s, c) && wd != Wall
    ensures Inside(s, Upwind(s, c, wd, n)) && Upwind(s, c, wd, n) == UpwindAt(s, c, wd, n)
    decreases n
  {
    if n == 0 {
      assert Upwind(s, c, wd, 0) == c;
      Laps(c.x, 0, s.width);
      Laps(c.y, 0, s.height);
    } else {
      var back := Blow(s, c, Opposite(wd));
      BlowBack(s, c, Opposite(wd));
      UpwindIsModular(s, back, wd, n - 1);
      BlowWraps(s, c, Opposite(wd));
      match wd
      case Up => ModStep(c.y, 1, n, s.height);
      case Down => ModStep(c.y, -1, n, s.height);
      case Left => ModStep(c.x, 1, n, s.width);
      case Right => ModStep(c.x, -1, n, s.width);
    }
  }

  /** One step and then `n - 1` more in the same direction, modulo `m`. */
  lemma ModStep(v: int, d: int, n: nat, m: nat)
    requires m > 0 && n > 0 && (d == 1 || d == -1)
    ensures d == 1 ==> ((v + 1) % m + (n - 1)) % m == (v + n) % m
    ensures d == -1 ==> ((v - 1) % m - (n - 1)) % m == (v - n) % m
  {
    if d == 1 {
      ModSum(v + 1, n - 1, m);
      assert v + 1 + (n - 1) == v + n;
    } else {
      ModSum(v - 1, -(n - 1), m);
      assert v - 1 + -(n - 1) == v - n;
    }
  }

  /** After `n` steps a cell holds a wind of kind `wd` exactly when the
      cell `n` steps against that wind held it at the start. */
  lemma {:induction false} IterateUpwind(step: WindState -> WindState, s: WindState, n: nat, c: Coord, wd: Wind)
    requires MovesWinds(step) && WellFormed(s) && Inside(s, c) && wd != Wall
    ensures WellFormed(Iterate(step, s, n)) &&
      (wd in Index(Iterate(step, s, n), c) <==> wd in Index(s, Upwind(s, c, wd, n)))
  {
    IterateWellFormed(step, s, n);
    if n > 0 {
      var back := Blow(s, c, Opposite(wd));
      var prev := Iterate(step, s, n - 1);
      BlowBack(s, c, Opposite(wd));
      IterateUpwind(step, s, n - 1, back, wd);
      IterateWellFormed(step, s, n - 1);
      assert Iterate(step, s, n) == step(IterateTo(step, s, n - 1));
      assert IterateTo(step, s, n - 1) == prev;
      assert Blow(prev, c, Opposite(wd)) == back by {
        assert prev.width == s.width && prev.height == s.height;
      }
      assert MovedFrom(prev, step(prev), c, wd);
    }
  }

  /** After `n` minutes a cell holds a wind of kind `wd` exactly when the
      cell `n` steps against that wind held it at the start. */
  lemma AdvanceNUpwind(s: WindState, n: nat, c: Coord, wd: Wind)
    requires WellFormed(s) && Inside(s, c) && wd != Wall
    ensures WellFormed(AdvanceN(s, n))
    ensures wd in Index(AdvanceN(s, n), c) <==> wd in Index(s, UpwindAt(s, c, wd, n))
  {
    MinuteMovesWinds();
    IterateUpwind(Minute, s, n, c, wd);
    UpwindIsModular(s, c, wd, n);
  }

  /** A whole number of laps round the valley in both directions leads
      back to the start. */
  lemma UpwindLaps(s: WindState, c: Coord, wd: Wind, l: nat)
    requires Inside(s, c) && wd != Wall && l % s.width == 0 && l % s.height == 0
    ensures Upwind(s, c, wd, l) == c
  {
    UpwindIsModular(s, c, wd, l);
    Laps(c.x, l, s.width);
    Laps(c.y, l, s.height);
  }

  lemma Laps(v: int, l: nat, m: nat)
    requires 0 <= v < m && l % m == 0
    ensures (v + l) % m == v && (v - l) % m == v
  {
    DivUnique(v + l, m, l / m, v);
    DivUnique(v - l, m, -(l / m), v);
  }

  lemma PeriodCell(s: WindState, l: nat, j: nat, wd: Wind)
    requires WellFormed(s) && j < |s.cells| && wd != Wall
    requires s.width > 0 && l % s.width == 0 && l % s.height == 0
    ensures var t := AdvanceN(s, l);
      WellFormed(t) && t.width == s.width && t.height == s.height && (wd in t.cells[j] <==> wd in s.cells[j])
  {
    IdxRoundTrip(s, Coord(0, 0), j);
    var c := CoordOf(s, j);
    MinuteMovesWinds();
    IterateUpwind(Minute, s, l, c, wd);
    UpwindLaps(s, c, wd, l);
    IterateWellFormed(Minute, s, l);
    IdxRoundTrip(AdvanceN(s, l), Coord(0, 0), j);
  }

  /** After `period` minutes every wind is back where it started. */
  lemma PeriodReturns(s: WindState)
    requires WellFormed(s)
    ensures AdvanceN(s, Period(s)) == s
  {
    var l := Period(s);
    MinuteMovesWinds();
    IterateWellFormed(Minute, s, l);
    var t := AdvanceN(s, l);
    if s.width > 0 && s.height > 0 {
      LcmIsCommonMultiple(s.width, s.height);
      forall j | 0 <= j < |s.cells| ensures t.cells[j] == s.cells[j] {
        forall wd | wd != Wall ensures wd in t.cells[j] <==> wd in s.cells[j] {
          PeriodCell(s, l, j, wd);
        }
      }
      assert t.cells == s.cells;
    } else if s.width == 0 {
      assert l == 0;
    } else {
      assert Gcd(s.width, 0) == s.width;
      assert l == 0;
    }
  }

  // ---------------------------------------------------------------------------
  // The cycle of wind states

  lemma AdvanceNNext(s: WindState, n: nat)
    requires WellFormed(s)
    ensures WellFormed(AdvanceN(s, n)) && AdvanceN(s, n + 1) == Advanced(AdvanceN(s, n))
  {
    MinuteMovesWinds();
    IterateWellFormed(Minute, s, n);
    assert AdvanceN(s, n + 1) == Minute(IterateTo(Minute, s, n));
  }

  /** The winds of one period, minute by minute from the input. */
  ghost function Schedule(s: WindState): (states: seq<WindState>)
    requires WellFormed(s)
  {
    seq(Period(s), i requires 0 <= i < Period(s) => AdvanceN(s, i))
  }

  /** The winds of one period as `part_1` and `part_2` collect them: the
      input followed by `period - 1` successive advances. */
  method WindStates(s: WindState) returns (states: seq<WindState>)
    requires WellFormed(s)
    ensures states == Schedule(s)
  {
    states := [];
    var current := s;
    while |states| < Period(s)
      invariant |states| <= Period(s) && current == AdvanceN(s, |states|)
      invariant forall i :: 0 <= i < |states| ==> states[i] == AdvanceN(s, i)
    {
      AdvanceNNext(s, |states|);
      states := states + [current];
      current := Advance(current);
    }
  }

  lemma {:induction false} AdvanceNAdd(s: WindState, a: nat, b: nat)
    requires WellFormed(s)
    ensures WellFormed(AdvanceN(s, a)) && AdvanceN(AdvanceN(s, a), b) == AdvanceN(s, a + b)
    decreases b
  {
    AdvanceNNext(s, a);
    if b > 0 {
      AdvanceNAdd(s, a, b - 1);
      AdvanceNNext(AdvanceN(s, a), b - 1);
      AdvanceNNext(s, a + b - 1);
    }
  }

  /** The winds repeat with the period: the winds of minute `t` are the
      ones stored at `t % period`. */
  lemma {:induction false} ScheduleRepeats(s: WindState, t: nat)
    requires WellFormed(s) && Period(s) > 0
    ensures Schedule(s)[t % Period(s)] == AdvanceN(s, t)
    decreases t
  {
    var l := Period(s);
    if t < l {
      DivUnique(t, l, 0, t);
    } else {
      ScheduleRepeats(s, t - l);
      AdvanceNAdd(s, l, t - l);
      PeriodReturns(s);
      AddMod(t - l, l);
    }
  }

  // ---------------------------------------------------------------------------
  // The expedition

  /** `possible_movements`: the four neighbours, then staying put. */
  function PossibleMovements(c: Coord): seq<Coord> {
    [Coord(c.x - 1, c.y), Coord(c.x + 1, c.y), Coord(c.x, c.y - 1), Coord(c.x, c.y + 1), c]
  }

  /** The expedition moves at most one cell, horizontally or vertically. */
  lemma PossibleMovementsMeaning(c: Coord, d: Coord)
    ensures d in PossibleMovements(c) <==>
      (d.y == c.y && c.x - 1 <= d.x <= c.x + 1) || (d.x == c.x && c.y - 1 <= d.y <= c.y + 1)
  {
  }

  /** A place the expedition may stand on in a wind state: no wind, no wall
      (`is_empty`). */
  predicate Free(s: WindState, c: Coord) {
    |s.cells| == s.width * s.height && Index(s, c) == {}
  }

  /** A node of the search: a place and the index of the wind state of the
      minute the expedition is there. */
  type Key = (Coord, nat)

  /** One minute of the expedition: a possible movement onto a place that is
      free in the next wind state. */
  predicate Move(states: seq<WindState>, a: Key, b: Key) {
    && |states| > 0 && b.1 == (a.1 + 1) % |states|
    && b.0 in PossibleMovements(a.0) && Free(states[b.1], b.0)
  }

  ghost predicate Walk(states: seq<WindState>, path: seq<Key>) {
    forall i :: 0 < i < |path| ==> Move(states, path[i - 1], path[i])
  }

  /** A trip from `start` at wind state `startIdx` to `end`, one node per
      minute. */
  ghost predicate Trip(states: seq<WindState>, startIdx: nat, start: Coord, end: Coord, path: seq<Key>) {
    && |path| > 0 && path[0] == (start, startIdx) && path[|path| - 1].0 == end
    && Walk(states, path)
  }

  /** `r` minutes is the length of a shortest trip, or no trip exists and
      `r` is 0. */
  ghost predicate IsShortest(states: seq<WindState>, startIdx: nat, start: Coord, end: Coord, r: nat) {
    && (forall path :: Trip(states, startIdx, start, end, path) ==> r < |path|)
    && ((exists path :: Trip(states, startIdx, start, end, path) && |path| == r + 1)
        || (r == 0 && forall path :: !Trip(states, startIdx, start, end, path)))
  }

  /** Along a trip the wind index is the start index plus the minutes
      elapsed, modulo the number of wind states. */
  lemma {:induction false} WalkPhase(states: seq<WindState>, path: seq<Key>, i: nat)
    requires |states| > 0 && Walk(states, path) && 0 < i < |path|
    ensures path[i].1 == (path[0].1 + i) % |states|
    decreases i
  {
    assert Move(states, path[i - 1], path[i]);
    if i > 1 {
      WalkPhase(states, path, i - 1);
      ModSum(path[0].1 + (i - 1), 1, |states|);
    }
  }

  // ---------------------------------------------------------------------------
  // The breadth-first search of `calc_trip`

  /** Every wind state has as many cells as its size says, so that looking
      up a place is defined. */
  predicate Sized(states: seq<WindState>) {
    forall i :: 0 <= i < |states| ==> |states[i].cells| == states[i].width * states[i].height
  }

  /** The `j`-th candidate node after `u`: a possible movement, at the next
      wind index. */
  function Successor(states: seq<WindState>, u: Key, j: nat): (b: Key)
    requires |states| > 0 && j < 5
    ensures b.1 < |states|
  {
    (PossibleMovements(u.0)[j], (u.1 + 1) % |states|)
  }

  /** Every node the search can reach: the root, or a place next to or
      inside the valley at one of the wind indices. */
  ghost function Universe(states: seq<WindState>, root: Key): set<Key> {
    {root} + set i: nat, x: int, y: int | i < |states| && -1 <= x <= states[i].width && -1 <= y <= states[i].height
      :: (Coord(x, y), i)
  }

  lemma UniverseHas(states: seq<WindState>, root: Key, b: Key)
    requires b.1 < |states| && Free(states[b.1], b.0)
    ensures b in Universe(states, root)
  {
    var s, c := states[b.1], b.0;
    if CoordToIdx(s, c).None? {
      assert c == StartPosition(s) || c == EndPosition(s);
    }
    assert -1 <= c.x <= s.width && -1 <= c.y <= s.height;
    assert b == (Coord(c.x, c.y), b.1);
  }

  lemma UnreachedShrinks(u: set<Key>, a: set<Key>, b: set<Key>)
    requires a < b && b <= u
    ensures |u - b| < |u - a|
  {
    var k :| k in b && k !in a;
    assert u - a == (u - b) + (b - a);
    assert (u - b) * (b - a) == {};
    assert {k} <= b - a;
  }

  /** Every reached node has a recorded walk from the root, one node longer
      than the node's cost. */
  ghost predicate Recorded(states: seq<WindState>, root: Key, cells: map<Key, Bfs.Cell<Key>>, paths: map<Key, seq<Key>>) {
    forall k {:trigger Logged(states, root, cells, paths, k)} :: k in cells ==> Logged(states, root, cells, paths, k)
  }

  /** The walk recorded for the reached node `k`. */
  ghost predicate Logged(states: seq<WindState>, root: Key, cells: map<Key, Bfs.Cell<Key>>, paths: map<Key, seq<Key>>, k: Key)
    requires k in cells
  {
    && k in paths && |paths[k]| == cells[k].cost + 1 && |paths[k]| > 0
    && paths[k][0] == root && paths[k][|paths[k]| - 1] == k && Walk(states, paths[k])
  }

  /** Every move out of an expanded node other than `except` leads to a
      reached node at most one minute further. */
  ghost predicate Closed(states: seq<WindState>, cells: map<Key, Bfs.Cell<Key>>, expanded: set<Key>, except: Option<Key>) {
    forall a, b {:trigger Move(states, a, b)} :: a in expanded && except != Some(a) && Move(states, a, b) ==>
      a in cells && b in cells && cells[b].cost <= cells[a].cost + 1
  }

  /** The first `i` candidates after `u` are blocked or reached at most one
      minute further. */
  ghost predicate ClosedUpTo(states: seq<WindState>, cells: map<Key, Bfs.Cell<Key>>, u: Key, i: nat) {
    && |states| > 0 && u in cells && i <= 5
    && forall j :: 0 <= j < i ==>
      var b := Successor(states, u, j);
      Free(states[b.1], b.0) ==> b in cells && cells[b].cost <= cells[u].cost + 1
  }

  /** A reached node has been expanded or waits in the frontier. */
  ghost predicate Accounted(expanded: set<Key>, consider: seq<Key>, k: Key) {
    k in expanded || k in consider
  }

  ghost predicate Base(states: seq<WindState>, root: Key, end: Coord, cells: map<Key, Bfs.Cell<Key>>, consider: seq<Key>, d: int, expanded: set<Key>, paths: map<Key, seq<Key>>) {
    && root in cells && cells[root].cost == 0
    && Bfs.Layered(cells, consider, d)
    && Recorded(states, root, cells, paths)
    && expanded <= cells.Keys
    && (forall k {:trigger Accounted(expanded, consider, k)} :: k in cells ==> Accounted(expanded, consider, k))
    && (forall k :: k in expanded ==> k.0 != end)
  }

  /** The invariant of the search between two expansions. */
  ghost predicate Searching(states: seq<WindState>, root: Key, end: Coord, cells: map<Key, Bfs.Cell<Key>>, consider: seq<Key>, d: int, expanded: set<Key>, paths: map<Key, seq<Key>>) {
    Base(states, root, end, cells, consider, d, expanded, paths) && Closed(states, cells, expanded, None)
  }

  /** The invariant while the candidates after `u` are tried, `i` of them
      so far. */
  ghost predicate Expanding(states: seq<WindState>, root: Key, end: Coord, cells: map<Key, Bfs.Cell<Key>>, consider: seq<Key>, d: int, expanded: set<Key>, paths: map<Key, seq<Key>>, u: Key, i: nat) {
    && Base(states, root, end, cells, consider, d, expanded, paths)
    && u in expanded && u in paths && cells[u].cost == d
    && Closed(states, cells, expanded, Some(u)) && ClosedUpTo(states, cells, u, i)
  }

  lemma SearchStart(states: seq<WindState>, root: Key, end: Coord)
    ensures Searching(states, root, end, map[root := Bfs.Cell(None, 0)], [root], 0, {}, map[root := [root]])
  {
    Bfs.LayeredStart(root, 0);
  }

  /** Taking the front of the frontier, which is not at the destination,
      for expansion. */
  lemma Pop(states: seq<WindState>, root: Key, end: Coord, cells: map<Key, Bfs.Cell<Key>>, consider: seq<Key>, d: int, expanded: set<Key>, paths: map<Key, seq<Key>>)
    requires Searching(states, root, end, cells, consider, d, expanded, paths)
    requires |states| > 0 && consider != [] && consider[0].0 != end
    ensures consider[0] in cells
    ensures Expanding(states, root, end, cells, consider[1..], cells[consider[0]].cost, expanded + {consider[0]}, paths, consider[0], 0)
  {
    var u := consider[0];
    Bfs.LayeredPop(cells, consider, d);
    assert Logged(states, root, cells, paths, u);
    forall k | k in cells ensures Accounted(expanded + {u}, consider[1..], k) {
      assert Accounted(expanded, consider, k);
      if k !in expanded && k != u {
        var i :| 0 <= i < |consider| && consider[i] == k;
        assert consider[1..][i - 1] == k;
      }
    }
  }

  /** Trying a candidate that the winds or the walls block. */
  lemma RelaxBlocked(states: seq<WindState>, root: Key, end: Coord, cells: map<Key, Bfs.Cell<Key>>, consider: seq<Key>, d: int, expanded: set<Key>, paths: map<Key, seq<Key>>, u: Key, i: nat)
    requires Expanding(states, root, end, cells, consider, d, expanded, paths, u, i) && i < 5
    requires !Free(states[Successor(states, u, i).1], Successor(states, u, i).0)
    ensures Expanding(states, root, end, cells, consider, d, expanded, paths, u, i + 1)
  {
  }

  /** Trying a free candidate that is already reached: it is close enough
      already. */
  lemma RelaxKnown(states: seq<WindState>, root: Key, end: Coord, cells: map<Key, Bfs.Cell<Key>>, consider: seq<Key>, d: int, expanded: set<Key>, paths: map<Key, seq<Key>>, u: Key, i: nat)
    requires Expanding(states, root, end, cells, consider, d, expanded, paths, u, i) && i < 5
    requires Successor(states, u, i) in cells
    ensures Expanding(states, root, end, cells, consider, d, expanded, paths, u, i + 1)
  {
    assert cells[Successor(states, u, i)].cost <= d + 1;
  }

  /** Trying a free candidate not reached before: it joins the frontier one
      minute after `u`, with the walk to `u` extended by it. */
  lemma RelaxNew(states: seq<WindState>, root: Key, end: Coord, cells: map<Key, Bfs.Cell<Key>>, consider: seq<Key>, d: int, expanded: set<Key>, paths: map<Key, seq<Key>>, u: Key, i: nat)
    returns (paths': map<Key, seq<Key>>)
    requires Expanding(states, root, end, cells, consider, d, expanded, paths, u, i) && i < 5
    requires Free(states[Successor(states, u, i).1], Successor(states, u, i).0)
    requires Successor(states, u, i) !in cells
    ensures var b := Successor(states, u, i);
      && paths' == paths[b := paths[u] + [b]]
      && Expanding(states, root, end, Bfs.Relaxed(cells, u, b, 1), consider + [b], d, expanded, paths', u, i + 1)
  {
    var b := Successor(states, u, i);
    var cells' := Bfs.Relaxed(cells, u, b, 1);
    paths' := paths[b := paths[u] + [b]];
    Bfs.LayeredRelax(cells, consider, d, u, b);
    RecordedGrows(states, root, cells, paths, u, b);
    forall k | k in cells' ensures Accounted(expanded, consider + [b], k) {
      if k != b {
        assert Accounted(expanded, consider, k);
      }
    }
    ClosedGrows(states, cells, expanded, Some(u), b, cells'[b]);
    assert ClosedUpTo(states, cells', u, i + 1) by {
      forall j | 0 <= j < i + 1
        ensures var c := Successor(states, u, j);
          Free(states[c.1], c.0) ==> c in cells' && cells'[c].cost <= cells'[u].cost + 1
      {
        if j < i {
          var c := Successor(states, u, j);
          assert Free(states[c.1], c.0) ==> c in cells && cells[c].cost <= cells[u].cost + 1;
        }
      }
    }
  }

  lemma RecordedGrows(states: seq<WindState>, root: Key, cells: map<Key, Bfs.Cell<Key>>, paths: map<Key, seq<Key>>, u: Key, b: Key)
    requires Recorded(states, root, cells, paths) && u in cells && u in paths && b !in cells && Move(states, u, b)
    ensures Recorded(states, root, Bfs.Relaxed(cells, u, b, 1), paths[b := paths[u] + [b]])
  {
    var cells' := Bfs.Relaxed(cells, u, b, 1);
    var paths' := paths[b := paths[u] + [b]];
    var p := paths[u] + [b];
    assert Logged(states, root, cells, paths, u);
    assert Walk(states, p) by {
      assert Walk(states, paths[u]);
      forall i | 0 < i < |p| ensures Move(states, p[i - 1], p[i]) {
        if i < |p| - 1 {
          assert p[i - 1] == paths[u][i - 1] && p[i] == paths[u][i];
        }
      }
    }
    forall k | k in cells' ensures Logged(states, root, cells', paths', k) {
      if k != b {
        assert Logged(states, root, cells, paths, k);
      }
    }
  }

  lemma ClosedGrows(states: seq<WindState>, cells: map<Key, Bfs.Cell<Key>>, expanded: set<Key>, except: Option<Key>, b: Key, c: Bfs.Cell<Key>)
    requires Closed(states, cells, expanded, except) && b !in cells
    ensures Closed(states, cells[b := c], expanded, except)
  {
    var cells' := cells[b := c];
    forall a, k | a in expanded && except != Some(a) && Move(states, a, k)
      ensures a in cells' && k in cells' && cells'[k].cost <= cells'[a].cost + 1
    {
      assert a in cells && k in cells;
    }
  }

  /** All candidates after `u` tried: `u` is closed like the rest. */
  lemma ExpandDone(states: seq<WindState>, root: Key, end: Coord, cells: map<Key, Bfs.Cell<Key>>, consider: seq<Key>, d: int, expanded: set<Key>, paths: map<Key, seq<Key>>, u: Key)
    requires Expanding(states, root, end, cells, consider, d, expanded, paths, u, 5)
    ensures Searching(states, root, end, cells, consider, d, expanded, paths)
  {
    forall a, b | a in expanded && Move(states, a, b)
      ensures a in cells && b in cells && cells[b].cost <= cells[a].cost + 1
    {
      if a == u {
        var j :| 0 <= j < 5 && PossibleMovements(u.0)[j] == b.0;
        assert b == Successor(states, u, j);
      }
    }
  }

  /** Along a walk from the root, while the nodes passed cost less than
      `bound` and are hence expanded, each node is reached no later than
      the minute it is walked to. */
  lemma {:induction false} ReachAlong(states: seq<WindState>, root: Key, cells: map<Key, Bfs.Cell<Key>>, expanded: set<Key>, p: seq<Key>, i: nat, bound: int)
    requires Closed(states, cells, expanded, None) && root in cells && cells[root].cost == 0
    requires forall k :: k in cells && cells[k].cost < bound ==> k in expanded
    requires Walk(states, p) && |p| > 0 && p[0] == root && i < |p| && i < bound
    ensures p[i] in cells && cells[p[i]].cost <= i
    decreases i
  {
    if i > 0 {
      ReachAlong(states, root, cells, expanded, p, i - 1, bound);
      assert Move(states, p[i - 1], p[i]);
    }
  }

  /** The front of the frontier is at the destination: its cost is the
      length of a shortest trip. */
  lemma Found(states: seq<WindState>, startIdx: nat, start: Coord, end: Coord, cells: map<Key, Bfs.Cell<Key>>, consider: seq<Key>, d: int, expanded: set<Key>, paths: map<Key, seq<Key>>)
    requires Searching(states, (start, startIdx), end, cells, consider, d, expanded, paths)
    requires consider != [] && consider[0].0 == end
    ensures consider[0] in cells && cells[consider[0]].cost >= 0
    ensures IsShortest(states, startIdx, start, end, cells[consider[0]].cost)
  {
    var root, u := (start, startIdx), consider[0];
    var c := cells[u].cost;
    assert Logged(states, root, cells, paths, u);
    Bfs.LayeredPop(cells, consider, d);
    forall k | k in cells && cells[k].cost < c ensures k in expanded {
      assert Accounted(expanded, consider, k);
    }
    forall p | Trip(states, startIdx, start, end, p) ensures c < |p| {
      if |p| - 1 < c {
        ReachAlong(states, root, cells, expanded, p, |p| - 1, c);
      }
    }
    assert Trip(states, startIdx, start, end, paths[u]);
  }

  /** The frontier ran dry without reaching the destination: there is no
      trip. */
  lemma Exhausted(states: seq<WindState>, startIdx: nat, start: Coord, end: Coord, cells: map<Key, Bfs.Cell<Key>>, d: int, expanded: set<Key>, paths: map<Key, seq<Key>>)
    requires Searching(states, (start, startIdx), end, cells, [], d, expanded, paths)
    ensures IsShortest(states, startIdx, start, end, 0)
  {
    forall k | k in cells ensures k in expanded {
      assert Accounted(expanded, [], k);
    }
    forall p | Trip(states, startIdx, start, end, p) ensures false {
      ReachAlong(states, (start, startIdx), cells, expanded, p, |p| - 1, |p|);
    }
  }

  /** `calc_trip`: the length in minutes of a shortest trip from `start`,
      entered at wind index `startIdx`, to `end`, or 0 when there is none. */
  method CalcTrip(states: seq<WindState>, startIdx: nat, start: Coord, end: Coord) returns (r: nat)
    requires |states| > 0 && Sized(states)
    ensures IsShortest(states, startIdx, start, end, r)
  {
    var root := (start, startIdx);
    var bfs := new Bfs.HashMapBfs<Key>();
    bfs.AddRoot(root, 0);
    ghost var d := 0;
    ghost var expanded: set<Key> := {};
    ghost var paths := map[root := [root]];
    ghost var nodes := Universe(states, root);
    SearchStart(states, root, end);
    while true
      invariant bfs.Valid()
      invariant Searching(states, root, end, bfs.cells, bfs.consider, d, expanded, paths)
      invariant bfs.cells.Keys <= nodes
      decreases |nodes - bfs.cells.Keys|, |bfs.consider|
    {
      ghost var cells0, consider0 := bfs.cells, bfs.consider;
      var next := bfs.ConsiderNext();
      if next.None? {
        break;
      }
      var u := next.value;
      if u.0 == end {
        Found(states, startIdx, start, end, cells0, consider0, d, expanded, paths);
        return bfs.Cost(u).value;
      }
      paths := TryMoves(bfs, states, root, end, u, nodes, consider0, d, expanded, paths);
      d := cells0[u].cost;
      expanded := expanded + {u};
    }
    Exhausted(states, startIdx, start, end, bfs.cells, d, expanded, paths);
    r := 0;
  }

  /** The inner loop of `calc_trip`: every possible movement onto a place
      free in the next wind state becomes an edge of weight 1. */
  method TryMoves(bfs: Bfs.HashMapBfs<Key>, states: seq<WindState>, root: Key, end: Coord, u: Key, ghost nodes: set<Key>,
                  ghost consider: seq<Key>, ghost d: int, ghost expanded: set<Key>, ghost paths: map<Key, seq<Key>>)
    returns (ghost paths': map<Key, seq<Key>>)
    requires bfs.Valid() && |states| > 0 && Sized(states)
    requires Searching(states, root, end, bfs.cells, consider, d, expanded, paths)
    requires consider != [] && u == consider[0] && u.0 != end && bfs.consider == consider[1..]
    requires nodes == Universe(states, root) && bfs.cells.Keys <= nodes
    modifies bfs
    ensures bfs.Valid() && u in old(bfs.cells)
    ensures Searching(states, root, end, bfs.cells, bfs.consider, old(bfs.cells)[u].cost, expanded + {u}, paths')
    ensures bfs.cells.Keys <= nodes
    ensures || |nodes - bfs.cells.Keys| < |nodes - old(bfs.cells).Keys|
            || (bfs.cells.Keys == old(bfs.cells).Keys && bfs.consider == old(bfs.consider))
  {
    Pop(states, root, end, bfs.cells, consider, d, expanded, paths);
    ghost var d', expanded' := bfs.cells[u].cost, expanded + {u};
    var moves := PossibleMovements(u.0);
    paths' := paths;
    for i := 0 to |moves|
      invariant bfs.Valid()
      invariant Expanding(states, root, end, bfs.cells, bfs.consider, d', expanded', paths', u, i)
      invariant old(bfs.cells).Keys <= bfs.cells.Keys <= Universe(states, root)
      invariant bfs.cells.Keys == old(bfs.cells).Keys ==> bfs.consider == old(bfs.consider)
    {
      paths' := TryMove(bfs, states, root, end, u, i, d', expanded', paths');
    }
    ExpandDone(states, root, end, bfs.cells, bfs.consider, d', expanded', paths', u);
    if bfs.cells.Keys != old(bfs.cells).Keys {
      UnreachedShrinks(nodes, old(bfs.cells).Keys, bfs.cells.Keys);
    }
  }

  /** One candidate of the inner loop: an edge of weight 1 when the place
      is free in the next wind state. */
  method TryMove(bfs: Bfs.HashMapBfs<Key>, states: seq<WindState>, root: Key, end: Coord, u: Key, i: nat, ghost d: int, ghost expanded: set<Key>, ghost paths: map<Key, seq<Key>>)
    returns (ghost paths': map<Key, seq<Key>>)
    requires bfs.Valid() && |states| > 0 && Sized(states) && i < 5
    requires Expanding(states, root, end, bfs.cells, bfs.consider, d, expanded, paths, u, i)
    requires bfs.cells.Keys <= Universe(states, root)
    modifies bfs
    ensures bfs.Valid()
    ensures Expanding(states, root, end, bfs.cells, bfs.consider, d, expanded, paths', u, i + 1)
    ensures old(bfs.cells).Keys <= bfs.cells.Keys <= Universe(states, root)
    ensures bfs.cells.Keys == old(bfs.cells).Keys ==> bfs.consider == old(bfs.consider)
  {
    var next := Successor(states, u, i);
    paths' := paths;
    if Index(states[next.1], next.0) == {} {
      Bfs.LayeredRelax(bfs.cells, bfs.consider, d, u, next);
      var accepted := bfs.AddEdge(u, next, 1);
      if accepted {
        UniverseHas(states, root, next);
        paths' := RelaxNew(states, root, end, old(bfs.cells), old(bfs.consider), d, expanded, paths, u, i);
      } else {
        RelaxKnown(states, root, end, bfs.cells, bfs.consider, d, expanded, paths, u, i);
      }
    } else {
      RelaxBlocked(states, root, end, bfs.cells, bfs.consider, d, expanded, paths, u, i);
    }
  }

  /** Two shortest-trip lengths for the same trip agree. */
  lemma ShortestUnique(states: seq<WindState>, startIdx: nat, start: Coord, end: Coord, r1: nat, r2: nat)
    requires IsShortest(states, startIdx, start, end, r1) && IsShortest(states, startIdx, start, end, r2)
    ensures r1 == r2
  {
    if p1 :| Trip(states, startIdx, start, end, p1) && |p1| == r1 + 1 {
      var p2 :| Trip(states, startIdx, start, end, p2) && |p2| == r2 + 1;
    }
  }

  // ---------------------------------------------------------------------------
  // Parts one and two

  /** The winds of one period are well formed and non-empty. */
  lemma ScheduleShape(s: WindState)
    requires WellFormed(s) && s.width > 0 && s.height > 0
    ensures Period(s) > 0 && |Schedule(s)| > 0 && Sized(Schedule(s))
  {
    LcmIsCommonMultiple(s.width, s.height);
    forall i | 0 <= i < Period(s) ensures WellFormed(Schedule(s)[i]) {
      AdvanceNNext(s, i);
    }
  }

  /** The nodes a trip passes when it stands on `places` minute by minute,
      starting at wind index `startIdx`. */
  ghost function Timed(places: seq<Coord>, startIdx: nat, l: nat): (path: seq<Key>)
    requires l > 0
    ensures |path| == |places|
  {
    seq(|places|, i requires 0 <= i < |places| => (places[i], if i == 0 then startIdx else (startIdx + i) % l))
  }

  /** A sequence of places, one per minute, that makes at most one step a
      minute and stands where the winds of that minute leave room. */
  ghost predicate Dodges(s: WindState, startIdx: nat, places: seq<Coord>) {
    forall i :: 0 < i < |places| ==>
      places[i] in PossibleMovements(places[i - 1]) && Free(AdvanceN(s, startIdx + i), places[i])
  }

  /** The trips on the wind states of one period are exactly the timed
      dodging walks through the valley: from a trip ... */
  lemma TripDodges(s: WindState, startIdx: nat, start: Coord, end: Coord, path: seq<Key>)
    requires WellFormed(s) && s.width > 0 && s.height > 0 && Trip(Schedule(s), startIdx, start, end, path)
    ensures Period(s) > 0
    ensures var places := seq(|path|, i requires 0 <= i < |path| => path[i].0);
      && Timed(places, startIdx, Period(s)) == path && Dodges(s, startIdx, places)
      && places[0] == start && places[|places| - 1] == end
  {
    ScheduleShape(s);
    var places := seq(|path|, i requires 0 <= i < |path| => path[i].0);
    forall i | 0 < i < |path|
      ensures path[i].1 == (startIdx + i) % Period(s)
      ensures places[i] in PossibleMovements(places[i - 1]) && Free(AdvanceN(s, startIdx + i), places[i])
    {
      assert Move(Schedule(s), path[i - 1], path[i]);
      WalkPhase(Schedule(s), path, i);
      ScheduleRepeats(s, startIdx + i);
    }
    assert Timed(places, startIdx, Period(s)) == path;
  }

  /** ... and back: a timed dodging walk is a trip. */
  lemma DodgesTrip(s: WindState, startIdx: nat, start: Coord, end: Coord, places: seq<Coord>)
    requires WellFormed(s) && s.width > 0 && s.height > 0 && Dodges(s, startIdx, places)
    requires |places| > 0 && places[0] == start && places[|places| - 1] == end
    ensures Period(s) > 0 && Trip(Schedule(s), startIdx, start, end, Timed(places, startIdx, Period(s)))
  {
    ScheduleShape(s);
    var l := Period(s);
    var path := Timed(places, startIdx, l);
    forall i | 0 < i < |path| ensures Move(Schedule(s), path[i - 1], path[i]) {
      DodgeStep(s, startIdx, places, i);
    }
  }

  lemma DodgeStep(s: WindState, startIdx: nat, places: seq<Coord>, i: nat)
    requires WellFormed(s) && s.width > 0 && s.height > 0 && Dodges(s, startIdx, places) && 0 < i < |places|
    ensures Period(s) > 0
    ensures Move(Schedule(s), Timed(places, startIdx, Period(s))[i - 1], Timed(places, startIdx, Period(s))[i])
  {
    ScheduleShape(s);
    var l := Period(s);
    var a, b := Timed(places, startIdx, l)[i - 1], Timed(places, startIdx, l)[i];
    assert b == (places[i], (startIdx + i) % l);
    ScheduleRepeats(s, startIdx + i);
    if i > 1 {
      assert a.1 == (startIdx + (i - 1)) % l;
      ModSum(startIdx + (i - 1), 1, l);
    }
  }

  /** `part_1`: the length of a shortest trip from the entrance to the exit,
      starting at minute 0. */
  method Part1(input: WindState) returns (r: nat)
    requires WellFormed(input) && input.width > 0 && input.height > 0
    ensures IsShortest(Schedule(input), 0, StartPosition(input), EndPosition(input), r)
  {
    var states := WindStates(input);
    ScheduleShape(input);
    r := CalcTrip(states, 0, StartPosition(input), EndPosition(input));
  }

  /** The three legs of `part_2`: there, back, and there again. */
  function Legs(input: WindState): seq<(Coord, Coord)> {
    [(StartPosition(input), EndPosition(input)),
     (EndPosition(input), StartPosition(input)),
     (StartPosition(input), EndPosition(input))]
  }

  /** Making the `legs` one after the other, each leg a shortest trip that
      starts at the minute the previous one ended, takes `total` minutes. */
  ghost predicate Journey(states: seq<WindState>, legs: seq<(Coord, Coord)>, total: nat)
    decreases |legs|
  {
    if legs == [] then total == 0
    else exists before: nat, t: nat {:trigger Leg(states, before, legs[|legs| - 1], t)} ::
      && before + t == total && Journey(states, legs[..|legs| - 1], before)
      && Leg(states, before, legs[|legs| - 1], t)
  }

  /** One leg: `t` minutes is a shortest trip along `leg` starting at
      minute `before`. */
  ghost predicate Leg(states: seq<WindState>, before: nat, leg: (Coord, Coord), t: nat) {
    IsShortest(states, before, leg.0, leg.1, t)
  }

  lemma JourneySnoc(states: seq<WindState>, legs: seq<(Coord, Coord)>, i: nat, before: nat, t: nat)
    requires i < |legs| && Journey(states, legs[..i], before) && Leg(states, before, legs[i], t)
    ensures Journey(states, legs[..i + 1], before + t)
  {
    assert legs[..i + 1][..i] == legs[..i];
  }

  /** The minutes of a journey are determined by its legs. */
  lemma {:induction false} JourneyUnique(states: seq<WindState>, legs: seq<(Coord, Coord)>, t1: nat, t2: nat)
    requires Journey(states, legs, t1) && Journey(states, legs, t2)
    ensures t1 == t2
    decreases |legs|
  {
    if legs != [] {
      var last := legs[|legs| - 1];
      var b1: nat, s1: nat :| b1 + s1 == t1 && Journey(states, legs[..|legs| - 1], b1) && Leg(states, b1, last, s1);
      var b2: nat, s2: nat :| b2 + s2 == t2 && Journey(states, legs[..|legs| - 1], b2) && Leg(states, b2, last, s2);
      JourneyUnique(states, legs[..|legs| - 1], b1, b2);
      ShortestUnique(states, b1, last.0, last.1, s1, s2);
    }
  }

  /** `part_2`: the minutes of the journey there, back for the snacks, and
      there again. */
  method Part2(input: WindState) returns (total: nat)
    requires WellFormed(input) && input.width > 0 && input.height > 0
    ensures Journey(Schedule(input), Legs(input), total)
  {
    var states := WindStates(input);
    ScheduleShape(input);
    var legs := Legs(input);
    total := 0;
    for i := 0 to |legs|
      invariant Journey(states, legs[..i], total)
    {
      var t := CalcTrip(states, total, legs[i].0, legs[i].1);
      JourneySnoc(states, legs, i, total, t);
      total := total + t;
    }
    assert legs[..|legs|] == legs;
  }
}
