/** Day 22: walking a board whose rows start at different columns. Each
    row and each column wraps around on itself; the walker turns left or
    right, or walks a number of steps, stopping in front of a wall. */
module Day22 {
  import opened Common

  /** `usize::MAX`, the start of a column range that no row covers yet. */
  const UsizeMax: nat := 0xFFFF_FFFF_FFFF_FFFF

  // ---------------------------------------------------------------------------
  // The board

  /** One row: the first column it covers, and for each tile from there
      whether it is a wall. */
  datatype Row = Row(start: nat, walls: seq<bool>)

  /** `range.end` of a row: one past its last column. */
  function End(row: Row): nat {
    row.start + |row.walls|
  }

  predicate Covers(row: Row, c: nat) {
    row.start <= c < End(row)
  }

  /** A half-open range of row numbers. */
  datatype Range = Range(start: nat, end: nat)

  /** The board: its rows, and for each column the range of rows in it. */
  datatype Board = Board(rows: seq<Row>, colRanges: seq<Range>)

  /** The number of leading spaces of a line. */
  function LeadingSpaces(line: string): (k: nat)
    ensures k <= |line| && forall i :: 0 <= i < k ==> line[i] == ' '
    ensures k < |line| ==> line[k] != ' '
  {
    if line == [] || line[0] != ' ' then 0 else 1 + LeadingSpaces(line[1..])
  }

  /** A row of the map in the input: spaces, then only `.` and `#`; any other
      character makes the generator panic. */
  predicate RowText(line: string) {
    forall i :: LeadingSpaces(line) <= i < |line| ==> line[i] == '.' || line[i] == '#'
  }

  /** The generator's reading of one row: it starts after the leading
      spaces, and a tile is a wall exactly where the text has `#`; `None`
      where the generator panics on a character other than `.` and `#`. */
  function ParseRow(line: string): (row: Option<Row>)
    ensures row.Some? <==> RowText(line)
    ensures row.Some? ==> row.value.start == LeadingSpaces(line) && End(row.value) == |line|
    ensures row.Some? ==> forall i :: 0 <= i < |row.value.walls| ==> (row.value.walls[i] <==> line[row.value.start + i] == '#')
  {
    if !RowText(line) then None
    else
      var offset := LeadingSpaces(line);
      Some(Row(offset, seq(|line| - offset, i requires 0 <= i < |line| - offset => line[offset + i] == '#')))
  }

  /** The largest row end: the number of columns. */
  function MaxEnd(rows: seq<Row>): (m: nat)
    requires |rows| > 0
    ensures forall r :: 0 <= r < |rows| ==> End(rows[r]) <= m
    ensures exists r :: 0 <= r < |rows| && End(rows[r]) == m
  {
    if |rows| == 1 then End(rows[0])
    else
      var m := MaxEnd(rows[..|rows| - 1]);
      assert forall r :: 0 <= r < |rows| - 1 ==> rows[..|rows| - 1][r] == rows[r];
      if End(rows[|rows| - 1]) > m then End(rows[|rows| - 1]) else m
  }

  /** The range of column `c` after the generator's loop has seen the first
      `k` rows: each row covering `c` lowers the start to it and raises the
      end past it. */
  function ColRangeUpTo(rows: seq<Row>, k: nat, c: nat): Range
    requires k <= |rows|
  {
    if k == 0 then Range(UsizeMax, 0)
    else
      var prev := ColRangeUpTo(rows, k - 1, c);
      if Covers(rows[k - 1], c) then
        Range(if prev.start < k - 1 then prev.start else k - 1, if prev.end > k then prev.end else k)
      else prev
  }

  /** The column ranges the generator builds. */
  function ColumnRangesOf(rows: seq<Row>): (cols: seq<Range>)
    requires |rows| > 0
    ensures |cols| == MaxEnd(rows)
  {
    seq(MaxEnd(rows), c requires 0 <= c => ColRangeUpTo(rows, |rows|, c))
  }

  /** A column's range runs from the first row covering it to one past the
      last; a column no row covers keeps the empty range `MAX..0`. */
  lemma {:induction false} ColRangeMeaning(rows: seq<Row>, k: nat, c: nat)
    requires k <= |rows| && k < UsizeMax
    ensures var rg := ColRangeUpTo(rows, k, c);
            if exists r :: 0 <= r < k && Covers(rows[r], c) then
              rg.start < rg.end <= k && Covers(rows[rg.start], c) && Covers(rows[rg.end - 1], c)
              && forall r :: 0 <= r < k && Covers(rows[r], c) ==> rg.start <= r < rg.end
            else rg == Range(UsizeMax, 0)
  {
    if k > 0 {
      ColRangeMeaning(rows, k - 1, c);
      if !Covers(rows[k - 1], c) {
        if exists r :: 0 <= r < k && Covers(rows[r], c) {
          var r :| 0 <= r < k && Covers(rows[r], c);
          assert r < k - 1;
        }
      }
    }
  }

  /** The generator's column loop, on a vector of ranges updated in place. */
  method ColumnRanges(rows: seq<Row>) returns (colRanges: seq<Range>)
    requires |rows| > 0
    ensures colRanges == ColumnRangesOf(rows)
  {
    var n := MaxEnd(rows);
    var cols := new Range[n](_ => Range(UsizeMax, 0));
    for r := 0 to |rows|
      invariant forall c :: 0 <= c < n ==> cols[c] == ColRangeUpTo(rows, r, c)
    {
      var row := rows[r];
      for c := row.start to End(row)
        invariant forall c' :: 0 <= c' < n ==>
          cols[c'] == if row.start <= c' < c then ColRangeUpTo(rows, r + 1, c') else ColRangeUpTo(rows, r, c')
      {
        var colRange := cols[c];
        cols[c] := Range(if colRange.start < r then colRange.start else r,
                         if colRange.end > r + 1 then colRange.end else r + 1);
      }
    }
    colRanges := cols[..];
  }

  /** Column `c` has the range the generator gives it, and every row of
      that range covers the column, as on the puzzle's boards; otherwise a
      vertical step can land off the board and the source's `unwrap`
      panics. */
  ghost predicate ColumnOk(b: Board, c: nat)
    requires c < |b.colRanges|
  {
    var rg := b.colRanges[c];
    rg == ColRangeUpTo(b.rows, |b.rows|, c)
    && forall r :: rg.start <= r < rg.end ==> r < |b.rows| && Covers(b.rows[r], c)
  }

  /** A board as the generator builds it, with unbroken columns. */
  ghost predicate WellFormed(b: Board) {
    |b.rows| > 0 && |b.rows| < UsizeMax && |b.colRanges| == MaxEnd(b.rows)
    && forall c :: 0 <= c < |b.colRanges| ==> ColumnOk(b, c)
  }

  /** The column ranges of a well-formed board are the generator's. */
  lemma WellFormedRanges(b: Board)
    requires WellFormed(b)
    ensures b.colRanges == ColumnRangesOf(b.rows)
  {
    forall c | 0 <= c < |b.colRanges|
      ensures b.colRanges[c] == ColumnRangesOf(b.rows)[c]
    {
      assert ColumnOk(b, c);
    }
  }

  /** Each column is one unbroken run of rows. */
  ghost predicate Contiguous(rows: seq<Row>) {
    forall c, r1, r, r2 :: 0 <= r1 <= r <= r2 < |rows| && Covers(rows[r1], c) && Covers(rows[r2], c) ==> Covers(rows[r], c)
  }

  /** The generator's board is well formed exactly when no column has a
      gap. */
  lemma GeneratedBoard(rows: seq<Row>)
    requires 0 < |rows| < UsizeMax
    ensures WellFormed(Board(rows, ColumnRangesOf(rows))) <==> Contiguous(rows)
  {
    var b := Board(rows, ColumnRangesOf(rows));
    if Contiguous(rows) {
      forall c | 0 <= c < |b.colRanges|
        ensures ColumnOk(b, c)
      {
        ContiguousColumn(rows, c);
      }
    } else {
      var c, r1, r, r2 :| 0 <= r1 <= r <= r2 < |rows| && Covers(rows[r1], c) && Covers(rows[r2], c) && !Covers(rows[r], c);
      GapInColumn(rows, c, r1, r);
    }
  }

  lemma ContiguousColumn(rows: seq<Row>, c: nat)
    requires 0 < |rows| < UsizeMax && Contiguous(rows) && c < MaxEnd(rows)
    ensures ColumnOk(Board(rows, ColumnRangesOf(rows)), c)
  {
    ColRangeMeaning(rows, |rows|, c);
  }

  lemma GapInColumn(rows: seq<Row>, c: nat, r1: nat, r: nat)
    requires 0 < |rows| < UsizeMax && r1 <= r < |rows| && Covers(rows[r1], c) && !Covers(rows[r], c)
    requires exists r2 :: r <= r2 < |rows| && Covers(rows[r2], c)
    ensures c < MaxEnd(rows) && !ColumnOk(Board(rows, ColumnRangesOf(rows)), c)
  {
    assert End(rows[r1]) <= MaxEnd(rows);
    ColRangeMeaning(rows, |rows|, c);
    var r2 :| r <= r2 < |rows| && Covers(rows[r2], c);
  }

  datatype Pos = Pos(r: nat, c: nat)

  predicate OnBoard(b: Board, p: Pos) {
    p.r < |b.rows| && Covers(b.rows[p.r], p.c)
  }

  /** `BoardMap::index`: `None` off the board, otherwise whether the tile
      is a wall. */
  function Index(b: Board, p: Pos): (t: Option<bool>)
    ensures t.Some? <==> OnBoard(b, p)
  {
    if |b.rows| <= p.r then None
    else
      var row := b.rows[p.r];
      if row.start <= p.c < End(row) then
        if row.walls[p.c - row.start] then Some(true) else Some(false)
      else None
  }

  /** A tile the walker may stand on. */
  predicate Open(b: Board, p: Pos) {
    Index(b, p) == Some(false)
  }

  /** The column of a tile on the board: its range holds the tile's row,
      and every row of that range covers the column. */
  lemma ColumnOf(b: Board, p: Pos)
    requires WellFormed(b) && OnBoard(b, p)
    ensures p.c < |b.colRanges|
    ensures var rg := b.colRanges[p.c];
            rg.start <= p.r < rg.end <= |b.rows|
            && forall r :: rg.start <= r < rg.end ==> Covers(b.rows[r], p.c)
  {
    assert End(b.rows[p.r]) <= MaxEnd(b.rows);
    assert ColumnOk(b, p.c);
    ColRangeMeaning(b.rows, |b.rows|, p.c);
  }

  // ---------------------------------------------------------------------------
  // Directions

  datatype Direction = Right | Down | Left | Up

  /** `Direction::idx`, the facing's part of the password. */
  function Idx(d: Direction): (i: nat)
    ensures i < 4
  {
    match d
    case Right => 0
    case Down => 1
    case Left => 2
    case Up => 3
  }

  /** `turn_right`: a quarter turn clockwise, the next facing in `idx` order. */
  function TurnRight(d: Direction): (e: Direction)
    ensures Idx(e) == (Idx(d) + 1) % 4
  {
    match d
    case Right => Down
    case Down => Left
    case Left => Up
    case Up => Right
  }

  /** `turn_left`: undoes a right turn, in both orders. */
  function TurnLeft(d: Direction): (e: Direction)
    ensures TurnRight(e) == d
  {
    match d
    case Right => Up
    case Down => Right
    case Left => Down
    case Up => Left
  }

  /** A left turn also undoes a right turn taken after it. */
  lemma LeftUndoesRight(d: Direction)
    ensures TurnLeft(TurnRight(d)) == d
  {
  }

  /** Four right turns face the same way again. */
  lemma FourTurns(d: Direction)
    ensures TurnRight(TurnRight(TurnRight(TurnRight(d)))) == d
  {
  }

  /** Two right turns: the way back. */
  function Reversed(d: Direction): Direction {
    TurnRight(TurnRight(d))
  }

  // ---------------------------------------------------------------------------
  // Stepping

  /** The place after `x` in `start..end`, wrapping to the start. */
  function NextIn(start: nat, end: nat, x: nat): (y: nat)
    requires start <= x < end
    ensures start <= y < end
  {
    if x + 1 < end then x + 1 else start
  }

  /** The place before `x` in `start..end`, wrapping to the end. */
  function PrevIn(start: nat, end: nat, x: nat): (y: nat)
    requires start <= x < end
    ensures start <= y < end
  {
    if start < x then x - 1 else end - 1
  }

  /** Stepping back undoes stepping on, and the other way round. */
  lemma PrevUndoesNext(start: nat, end: nat, x: nat)
    requires start <= x < end
    ensures PrevIn(start, end, NextIn(start, end, x)) == x
    ensures NextIn(start, end, PrevIn(start, end, x)) == x
  {
  }

  /** The tile a step heads for, before looking for a wall: the next place
      of the row or column, wrapping around. */
  function Heading(b: Board, p: Pos, d: Direction): (q: Pos)
    requires WellFormed(b) && OnBoard(b, p)
    ensures OnBoard(b, q)
    ensures (d.Right? || d.Left?) ==> q.r == p.r
    ensures (d.Down? || d.Up?) ==> q.c == p.c
  {
    ColumnOf(b, p);
    var row, range := b.rows[p.r], b.colRanges[p.c];
    match d
    case Right => Pos(p.r, NextIn(row.start, End(row), p.c))
    case Down => Pos(NextIn(range.start, range.end, p.r), p.c)
    case Left => Pos(p.r, PrevIn(row.start, End(row), p.c))
    case Up => Pos(PrevIn(range.start, range.end, p.r), p.c)
  }

  /** `BoardMap::calc_step`: the next tile in direction `d`, unless it is a
      wall. */
  function CalcStep(b: Board, p: Pos, d: Direction): (q: Option<Pos>)
    requires WellFormed(b) && OnBoard(b, p)
    ensures q.None? <==> Index(b, Heading(b, p, d)) == Some(true)
    ensures q.Some? ==> q.value == Heading(b, p, d) && Open(b, q.value)
  {
    var newPos := Heading(b, p, d);
    if Index(b, newPos).value then None else Some(newPos)
  }

  /** The neighbour in direction `d` on the row or column seen as a circle:
      one place on, modulo its length. */
  function Target(b: Board, p: Pos, d: Direction): Pos
    requires WellFormed(b) && OnBoard(b, p)
  {
    ColumnOf(b, p);
    var row, col := b.rows[p.r], b.colRanges[p.c];
    var width, height := |row.walls|, col.end - col.start;
    match d
    case Right => Pos(p.r, row.start + (p.c - row.start + 1) % width)
    case Left => Pos(p.r, row.start + (p.c - row.start - 1) % width)
    case Down => Pos(col.start + (p.r - col.start + 1) % height, p.c)
    case Up => Pos(col.start + (p.r - col.start - 1) % height, p.c)
  }

  /** Stepping on is adding one modulo the length of the range. */
  lemma NextInWraps(start: nat, end: nat, x: nat)
    requires start <= x < end
    ensures NextIn(start, end, x) == start + (x - start + 1) % (end - start)
  {
    if x + 1 < end {
      DivUnique(x - start + 1, end - start, 0, x - start + 1);
    } else {
      DivUnique(x - start + 1, end - start, 1, 0);
    }
  }

  /** Stepping back is subtracting one modulo the length of the range. */
  lemma PrevInWraps(start: nat, end: nat, x: nat)
    requires start <= x < end
    ensures PrevIn(start, end, x) == start + (x - start - 1) % (end - start)
  {
    if start < x {
      DivUnique(x - start - 1, end - start, 0, x - start - 1);
    } else {
      DivUnique(x - start - 1, end - start, -1, end - start - 1);
    }
  }

  /** A step heads for the circular neighbour (and, by `CalcStep`'s
      contract, fails exactly when that tile is a wall). */
  lemma HeadingWraps(b: Board, p: Pos, d: Direction)
    requires WellFormed(b) && OnBoard(b, p)
    ensures Heading(b, p, d) == Target(b, p, d)
  {
    ColumnOf(b, p);
    var row, col := b.rows[p.r], b.colRanges[p.c];
    match d
    case Right => NextInWraps(row.start, End(row), p.c);
    case Left => PrevInWraps(row.start, End(row), p.c);
    case Down => NextInWraps(col.start, col.end, p.r);
    case Up => PrevInWraps(col.start, col.end, p.r);
  }

  /** A step that succeeds from an open tile can be walked back. */
  lemma StepBack(b: Board, p: Pos, d: Direction)
    requires WellFormed(b) && OnBoard(b, p) && Open(b, p) && CalcStep(b, p, d).Some?
    ensures CalcStep(b, CalcStep(b, p, d).value, Reversed(d)) == Some(p)
  {
    var q := Heading(b, p, d);
    ColumnOf(b, p);
    ColumnOf(b, q);
    var row, col := b.rows[p.r], b.colRanges[p.c];
    match d
    case Right => PrevUndoesNext(row.start, End(row), p.c);
    case Left => PrevUndoesNext(row.start, End(row), p.c);
    case Down => PrevUndoesNext(col.start, col.end, p.r);
    case Up => PrevUndoesNext(col.start, col.end, p.r);
    assert Heading(b, q, Reversed(d)) == p;
  }

  // ---------------------------------------------------------------------------
  // Walking

  /** Up to `n` steps in direction `d`, stopping at the first wall. */
  function Walked(b: Board, p: Pos, d: Direction, n: nat): (q: Pos)
    requires WellFormed(b) && OnBoard(b, p)
    ensures OnBoard(b, q)
    decreases n
  {
    if n == 0 then p
    else match CalcStep(b, p, d)
      case None => p
      case Some(next) => Walked(b, next, d, n - 1)
  }

  /** A walk from a free tile ends on a free tile. */
  lemma {:induction false} WalkedOpen(b: Board, p: Pos, d: Direction, n: nat)
    requires WellFormed(b) && OnBoard(b, p) && Open(b, p)
    ensures Open(b, Walked(b, p, d, n))
    decreases n
  {
    if n > 0 && CalcStep(b, p, d).Some? {
      WalkedOpen(b, CalcStep(b, p, d).value, d, n - 1);
    }
  }

  /** In front of a wall, no number of steps moves the walker. */
  lemma Stuck(b: Board, p: Pos, d: Direction, n: nat)
    requires WellFormed(b) && OnBoard(b, p) && CalcStep(b, p, d).None?
    ensures Walked(b, p, d, n) == p
  {
  }

  /** Walking `n` steps and then `m` more is walking `n + m` steps. */
  lemma {:induction false} WalkedCompose(b: Board, p: Pos, d: Direction, n: nat, m: nat)
    requires WellFormed(b) && OnBoard(b, p)
    ensures Walked(b, Walked(b, p, d, n), d, m) == Walked(b, p, d, n + m)
    decreases n, 1
  {
    if n == 0 {
      assert Walked(b, p, d, n) == p;
    } else if CalcStep(b, p, d).None? {
      Stuck(b, p, d, n);
      Stuck(b, p, d, m);
      Stuck(b, p, d, n + m);
    } else {
      ComposeThrough(b, p, d, n, m, CalcStep(b, p, d).value);
    }
  }

  /** The inductive step of `WalkedCompose`: after a successful first
      step, compose from the next tile. */
  lemma ComposeThrough(b: Board, p: Pos, d: Direction, n: nat, m: nat, next: Pos)
    requires WellFormed(b) && OnBoard(b, p) && n > 0 && CalcStep(b, p, d) == Some(next)
    ensures Walked(b, Walked(b, p, d, n), d, m) == Walked(b, p, d, n + m)
    decreases n, 0
  {
    WalkedFirstStep(b, p, d, n);
    WalkedFirstStep(b, p, d, n + m);
    var k := n - 1;
    assert n + m - 1 == k + m;
    WalkedCompose(b, next, d, k, m);
  }

  /** A walk of `n > 0` steps either stops at once in front of a wall or
      takes one step and walks `n - 1` more from there. */
  lemma WalkedFirstStep(b: Board, p: Pos, d: Direction, n: nat)
    requires WellFormed(b) && OnBoard(b, p) && n > 0
    ensures CalcStep(b, p, d).None? ==> Walked(b, p, d, n) == p
    ensures CalcStep(b, p, d).Some? ==> Walked(b, p, d, n) == Walked(b, CalcStep(b, p, d).value, d, n - 1)
  {
  }

  datatype Instruction = Walk(steps: nat) | TurnR | TurnL

  /** The walker after one instruction: a walk moves without turning, a turn
      turns without moving. */
  function Applied(b: Board, p: Pos, d: Direction, ins: Instruction): (r: (Pos, Direction))
    requires WellFormed(b) && Open(b, p)
    ensures Open(b, r.0)
    ensures ins.Walk? ==> r.1 == d
    ensures !ins.Walk? ==> r.0 == p
  {
    match ins
    case Walk(n) => WalkedOpen(b, p, d, n); (Walked(b, p, d, n), d)
    case TurnR => (p, TurnRight(d))
    case TurnL => (p, TurnLeft(d))
  }

  /** The walker after a list of instructions. */
  function Run(b: Board, p: Pos, d: Direction, instructions: seq<Instruction>): (r: (Pos, Direction))
    requires WellFormed(b) && Open(b, p)
    ensures Open(b, r.0)
    decreases |instructions|
  {
    if instructions == [] then (p, d)
    else
      var next := Applied(b, p, d, instructions[0]);
      Run(b, next.0, next.1, instructions[1..])
  }

  /** The first free tile of a row. */
  function FirstOpen(walls: seq<bool>): (i: nat)
    requires false in walls
    ensures i < |walls| && !walls[i] && forall j :: 0 <= j < i ==> walls[j]
  {
    if !walls[0] then 0 else 1 + FirstOpen(walls[1..])
  }

  /** `calc_password`: 1000 per row, 4 per column, counted from 1, plus
      the facing. */
  function Password(p: Pos, d: Direction): nat {
    1000 * (p.r + 1) + 4 * (p.c + 1) + Idx(d)
  }

  /** On a board narrower than 249 columns the password gives back the
      row, the column and the facing. */
  lemma PasswordDecodes(p: Pos, d: Direction)
    requires p.c < 249
    ensures Password(p, d) / 1000 == p.r + 1
    ensures (Password(p, d) % 1000) / 4 == p.c + 1 && Password(p, d) % 4 == Idx(d)
  {
    var low := 4 * (p.c + 1) + Idx(d);
    DivUnique(Password(p, d), 1000, p.r + 1, low);
    DivUnique(low, 4, p.c + 1, Idx(d));
    DivUnique(Password(p, d), 4, 250 * (p.r + 1) + p.c + 1, Idx(d));
  }

  /** `State`: where the walker stands and where it faces, on a board it
      only reads. */
  class State {
    var pos: Pos
    var direction: Direction
    const board: Board

    ghost predicate Valid()
      reads this
    {
      WellFormed(board) && Open(board, pos)
    }

    /** `State::new`: the first free tile of the top row, facing right. */
    constructor (map_: Board)
      requires WellFormed(map_) && false in map_.rows[0].walls
      ensures Valid() && board == map_ && direction == Right
      ensures pos == Pos(0, map_.rows[0].start + FirstOpen(map_.rows[0].walls))
    {
      var row := map_.rows[0];
      var firstPosCol := row.start + FirstOpen(row.walls);
      pos := Pos(0, firstPosCol);
      direction := Right;
      board := map_;
    }

    /** `apply_instruction`: a walk steps until the count runs out or a
        wall is in front; a turn changes only the facing. */
    method ApplyInstruction(instruction: Instruction)
      requires Valid()
      modifies this
      ensures Valid()
      ensures (pos, direction) == Applied(board, old(pos), old(direction), instruction)
    {
      match instruction {
        case Walk(numSteps) =>
          for i := 0 to numSteps
            invariant Valid() && direction == old(direction)
            invariant Walked(board, pos, direction, numSteps - i) == Walked(board, old(pos), direction, numSteps)
          {
            WalkedFirstStep(board, pos, direction, numSteps - i);
            var newPos := CalcStep(board, pos, direction);
            if newPos.Some? {
              pos := newPos.value;
            } else {
              return;
            }
          }
        case TurnR =>
          direction := TurnRight(direction);
        case TurnL =>
          direction := TurnLeft(direction);
      }
    }

    /** `calc_password` of the current state: the password, from which the row, the column and the facing can
        be read back on a board narrower than 249 columns. */
    function CalcPassword(): (password: nat)
      reads this
      ensures pos.c < 249 ==> password / 1000 == pos.r + 1
      ensures pos.c < 249 ==> (password % 1000) / 4 == pos.c + 1 && password % 4 == Idx(direction)
    {
      if pos.c < 249 then
        PasswordDecodes(pos, direction);
        Password(pos, direction)
      else
        Password(pos, direction)
    }
  }

  /** `part_1`: follow every instruction from the start and read off the
      password. */
  method Part1(board: Board, instructions: seq<Instruction>) returns (password: nat)
    requires WellFormed(board) && false in board.rows[0].walls
    ensures var start := Pos(0, board.rows[0].start + FirstOpen(board.rows[0].walls));
            var end := Run(board, start, Right, instructions);
            password == Password(end.0, end.1)
  {
    var state := new State(board);
    ghost var start := state.pos;
    for i := 0 to |instructions|
      invariant state.Valid() && state.board == board
      invariant Run(board, start, Right, instructions) == Run(board, state.pos, state.direction, instructions[i..])
    {
      state.ApplyInstruction(instructions[i]);
      assert instructions[i..][1..] == instructions[i + 1..];
    }
    password := state.CalcPassword();
  }
}
