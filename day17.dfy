/** Day 17: pyroclastic flow.  Bricks of five shapes fall into a chamber
    seven cells wide; each one is pushed by a jet of gas, then falls one row,
    until it can fall no further and freezes into the rocks. */
module Day17 {
  import opened Common

  datatype Jet = Left | Right

  // ---------------------------------------------------------------------------
  // The jet pattern

  /** The characters the generator accepts; any other one makes it panic. */
  predicate JetChar(c: char) { c == '<' || c == '>' || c == '\n' }

  predicate JetText(input: string) { forall i :: 0 <= i < |input| ==> JetChar(input[i]) }

  /** `generator`: `<` pushes left, `>` pushes right, line breaks are skipped. */
  function Generator(input: string): (r: seq<Jet>)
    requires JetText(input)
    ensures |r| <= |input|
  {
    if input == [] then []
    else
      var rest := Generator(input[1..]);
      if input[0] == '<' then [Left] + rest
      else if input[0] == '>' then [Right] + rest
      else rest
  }

  function JetSymbol(j: Jet): char {
    match j
    case Left => '<'
    case Right => '>'
  }

  function Render(jets: seq<Jet>): (s: string)
    ensures |s| == |jets| && JetText(s)
  {
    seq(|jets|, i requires 0 <= i < |jets| => JetSymbol(jets[i]))
  }

  lemma {:induction false} GeneratorAppend(a: string, b: string)
    requires JetText(a) && JetText(b)
    ensures JetText(a + b) && Generator(a + b) == Generator(a) + Generator(b)
  {
    assert JetText(a + b) by {
      forall i | 0 <= i < |a + b| ensures JetChar((a + b)[i]) {
        if i < |a| { assert (a + b)[i] == a[i]; } else { assert (a + b)[i] == b[i - |a|]; }
      }
    }
    if a != [] {
      assert (a + b)[1..] == a[1..] + b;
      assert JetText(a[1..]) by {
        forall i | 0 <= i < |a[1..]| ensures JetChar(a[1..][i]) { assert a[1..][i] == a[i + 1]; }
      }
      GeneratorAppend(a[1..], b);
    } else {
      assert a + b == b;
    }
  }

  /** Reading the symbols of a jet pattern gives the pattern back. */
  lemma {:induction false} GeneratorRender(jets: seq<Jet>)
    ensures Generator(Render(jets)) == jets
  {
    if jets != [] {
      assert Render(jets)[1..] == Render(jets[1..]);
      GeneratorRender(jets[1..]);
      match jets[0]
      case Left => assert Render(jets)[0] == '<';
      case Right => assert Render(jets)[0] == '>';
    }
  }

  /** A line break anywhere in the input is skipped. */
  lemma NewlineSkipped(a: string, b: string)
    requires JetText(a) && JetText(b)
    ensures JetText(a + "\n" + b) && Generator(a + "\n" + b) == Generator(a) + Generator(b)
  {
    assert JetText("\n");
    GeneratorAppend(a, "\n");
    GeneratorAppend(a + "\n", b);
    assert Generator("\n") == [];
  }

  // ---------------------------------------------------------------------------
  // Brick patterns

  /** A cell of a brick, or the offset of a cell to test, as column and row
      (`[usize; 2]` in the source). */
  datatype Contact = Contact(col: nat, row: nat)

  /** The cells of a brick, bottom row first, and the cells to test before
      moving it down, left or right (relative to the moved position). */
  datatype BrickPattern = BrickPattern(
    pattern: seq<seq<bool>>,
    contactDown: seq<Contact>,
    contactLeft: seq<Contact>,
    contactRight: seq<Contact>)

  const HorizontalLine := BrickPattern(
    [[true, true, true, true]],
    [Contact(0, 0), Contact(1, 0), Contact(2, 0), Contact(3, 0)],
    [Contact(0, 0)],
    [Contact(3, 0)])

  const Plus := BrickPattern(
    [[false, true, false], [true, true, true], [false, true, false]],
    [Contact(0, 1), Contact(1, 0), Contact(2, 1)],
    [Contact(1, 0), Contact(0, 1), Contact(1, 2)],
    [Contact(1, 0), Contact(2, 1), Contact(1, 2)])

  const Corner := BrickPattern(
    [[true, true, true], [false, false, true], [false, false, true]],
    [Contact(0, 0), Contact(1, 0), Contact(2, 0)],
    [Contact(0, 0), Contact(2, 1), Contact(2, 2)],
    [Contact(2, 0), Contact(2, 1), Contact(2, 2)])

  const VerticalLine := BrickPattern(
    [[true], [true], [true], [true]],
    [Contact(0, 0)],
    [Contact(0, 0), Contact(0, 1), Contact(0, 2), Contact(0, 3)],
    [Contact(0, 0), Contact(0, 1), Contact(0, 2), Contact(0, 3)])

  const Square := BrickPattern(
    [[true, true], [true, true]],
    [Contact(0, 0), Contact(1, 0)],
    [Contact(0, 0), Contact(0, 1)],
    [Contact(1, 0), Contact(1, 1)])

  /** `BRICK_PATTERNS`, in the order the bricks fall. */
  const BrickPatterns: seq<BrickPattern> := [HorizontalLine, Plus, Corner, VerticalLine, Square]

  /** Every row of a brick is as wide as its first one. */
  predicate WellFormed(p: BrickPattern) {
    |p.pattern| > 0 && forall r :: 0 <= r < |p.pattern| ==> |p.pattern[r]| == |p.pattern[0]|
  }

  function Width(p: BrickPattern): nat
    requires WellFormed(p)
  {
    |p.pattern[0]|
  }

  function Height(p: BrickPattern): nat { |p.pattern| }

  /** Column `c`, row `r` of the brick is rock. */
  predicate Filled(p: BrickPattern, c: int, r: int) {
    0 <= r < |p.pattern| && 0 <= c < |p.pattern[r]| && p.pattern[r][c]
  }

  /** Moving the brick by (`dc`, `dr`) puts each of its cells either where
      one of its own cells was, or on a cell the contacts test: the contacts
      are offsets from the moved position, so cell (c, r) lands on contact
      (c, r) or on the old cell (c + dc, r + dr). */
  ghost predicate CoveredBy(p: BrickPattern, contacts: seq<Contact>, dc: int, dr: int) {
    forall c: nat, r: nat :: Filled(p, c, r) ==> Contact(c, r) in contacts || Filled(p, c + dc, r + dr)
  }

  /** The contacts of a brick test enough cells: a move they allow never
      puts the brick on rock. */
  ghost predicate Sound(p: BrickPattern) {
    && WellFormed(p)
    && CoveredBy(p, p.contactLeft, -1, 0)
    && CoveredBy(p, p.contactRight, 1, 0)
    && CoveredBy(p, p.contactDown, 0, -1)
  }

  lemma PlusSound()
    ensures Sound(Plus)
  {
    forall c: nat, r: nat | Filled(Plus, c, r)
      ensures Contact(c, r) in Plus.contactLeft || Filled(Plus, c - 1, r)
      ensures Contact(c, r) in Plus.contactRight || Filled(Plus, c + 1, r)
      ensures Contact(c, r) in Plus.contactDown || Filled(Plus, c, r - 1)
    {
      assert (r == 0 && c == 1) || (r == 1 && c < 3) || (r == 2 && c == 1);
    }
  }

  lemma CornerSound()
    ensures Sound(Corner)
  {
    forall c: nat, r: nat | Filled(Corner, c, r)
      ensures Contact(c, r) in Corner.contactLeft || Filled(Corner, c - 1, r)
      ensures Contact(c, r) in Corner.contactRight || Filled(Corner, c + 1, r)
      ensures Contact(c, r) in Corner.contactDown || Filled(Corner, c, r - 1)
    {
      assert (r == 0 && c < 3) || (r == 1 && c == 2) || (r == 2 && c == 2);
    }
  }

  lemma VerticalLineSound()
    ensures Sound(VerticalLine)
  {
    forall c: nat, r: nat | Filled(VerticalLine, c, r)
      ensures Contact(c, r) in VerticalLine.contactDown || Filled(VerticalLine, c, r - 1)
    {
      assert c == 0 && r < 4;
    }
  }

  lemma SquareSound()
    ensures Sound(Square)
  {
    forall c: nat, r: nat | Filled(Square, c, r)
      ensures Contact(c, r) in Square.contactLeft || Filled(Square, c - 1, r)
      ensures Contact(c, r) in Square.contactRight || Filled(Square, c + 1, r)
      ensures Contact(c, r) in Square.contactDown || Filled(Square, c, r - 1)
    {
      assert r < 2 && c < 2;
    }
  }

  /** The contacts `BRICK_PATTERNS` lists for each brick are sound. */
  lemma PatternsSound()
    ensures forall i :: 0 <= i < |BrickPatterns| ==> Sound(BrickPatterns[i])
  {
    assert Sound(HorizontalLine);
    PlusSound();
    CornerSound();
    VerticalLineSound();
    SquareSound();
  }

  // ---------------------------------------------------------------------------
  // The arena: `rocks` holds `cols` cells per row, bottom row first

  /** Where column `x` of row `y` is stored. */
  function Idx(cols: nat, x: nat, y: nat): nat { x + y * cols }

  /** `Index`: the cell at column `x`, row `y`; cells beyond the stored
      rocks are empty. */
  function CellAt(rocks: seq<bool>, cols: nat, x: nat, y: nat): bool {
    Idx(cols, x, y) < |rocks| && rocks[Idx(cols, x, y)]
  }

  /** `rows`: how many rows are stored. */
  function Rows(rocks: seq<bool>, cols: nat): nat
    requires cols > 0
  {
    |rocks| / cols
  }

  /** Column and row can be read back from the position of a cell. */
  lemma IndexDivMod(x: nat, y: nat, cols: nat)
    requires x < cols
    ensures Idx(cols, x, y) / cols == y && Idx(cols, x, y) % cols == x
  {
    DivUnique(x + y * cols, cols, y, x);
  }

  /** Different cells are stored in different places. */
  lemma IndexUnique(cols: nat, x: nat, y: nat, x': nat, y': nat)
    requires x < cols && x' < cols && Idx(cols, x, y) == Idx(cols, x', y')
    ensures x == x' && y == y'
  {
    IndexDivMod(x, y, cols);
    IndexDivMod(x', y', cols);
  }

  /** A cell is stored among the first `rows` rows exactly when its row is
      below `rows`. */
  lemma IndexBelow(x: nat, y: nat, cols: nat, rows: nat)
    requires x < cols
    ensures Idx(cols, x, y) < rows * cols <==> y < rows
  {
    if y < rows {
      MulMonotone(y + 1, rows, cols);
    } else {
      MulMonotone(rows, y, cols);
    }
  }

  /** Rows are whole: the stored cells are exactly `rows · cols`. */
  lemma RowsWhole(rocks: seq<bool>, cols: nat)
    requires 0 < cols && |rocks| % cols == 0
    ensures |rocks| == Rows(rocks, cols) * cols
  {
  }

  /** `rows · cols` cells make `rows` whole rows. */
  lemma WholeRows(rows: nat, cols: nat)
    requires 0 < cols
    ensures (rows * cols) % cols == 0 && (rows * cols) / cols == rows
  {
    DivUnique(rows * cols, cols, rows, 0);
  }

  /** Every cell of a row at or above the stored rows is empty. */
  lemma AboveIsEmpty(rocks: seq<bool>, cols: nat, x: nat, y: nat)
    requires 0 < cols && |rocks| % cols == 0 && Rows(rocks, cols) <= y
    ensures !CellAt(rocks, cols, x, y)
  {
    RowsWhole(rocks, cols);
    MulMonotone(Rows(rocks, cols), y, cols);
  }

  /** `top_rows`: the last `numRows` rows, or everything when fewer are
      stored. */
  function TopRows(rocks: seq<bool>, cols: nat, numRows: nat): seq<bool> {
    var numCells := numRows * cols;
    if |rocks| < numCells then rocks else rocks[|rocks| - numCells..]
  }

  /** The top rows hold `min(rows, numRows)` whole rows. */
  lemma TopRowsLength(rocks: seq<bool>, cols: nat, numRows: nat)
    requires 0 < cols && |rocks| % cols == 0
    ensures var k := if Rows(rocks, cols) < numRows then Rows(rocks, cols) else numRows;
      |TopRows(rocks, cols, numRows)| == k * cols
  {
    RowsWhole(rocks, cols);
    var rows := Rows(rocks, cols);
    if rows < numRows {
      MulMonotone(rows + 1, numRows, cols);
    } else {
      MulMonotone(numRows, rows, cols);
    }
  }

  /** The top rows read like the highest `min(rows, numRows)` rows of the
      arena, renumbered from 0. */
  lemma TopRowsMeaning(rocks: seq<bool>, cols: nat, numRows: nat, x: nat, y: nat)
    requires 0 < cols && |rocks| % cols == 0 && x < cols
    ensures var k := if Rows(rocks, cols) < numRows then Rows(rocks, cols) else numRows;
      CellAt(TopRows(rocks, cols, numRows), cols, x, y) == (y < k && CellAt(rocks, cols, x, y + Rows(rocks, cols) - k))
  {
    var rows := Rows(rocks, cols);
    var k := if rows < numRows then rows else numRows;
    var top := TopRows(rocks, cols, numRows);
    TopRowsLength(rocks, cols, numRows);
    RowsWhole(rocks, cols);
    MulSubRight(rows, k, cols);
    MulAddRight(y, rows - k, cols);
    assert Idx(cols, x, y + rows - k) == Idx(cols, x, y) + (|rocks| - |top|);
    IndexBelow(x, y, cols, k);
    IndexBelow(x, y + rows - k, cols, rows);
  }

  /** `has_collision`: some contact, offset by (`x`, `y`), is rock. */
  function HasCollision(rocks: seq<bool>, cols: nat, x: nat, y: nat, contacts: seq<Contact>): (r: bool)
    ensures r <==> exists k :: 0 <= k < |contacts| && CellAt(rocks, cols, x + contacts[k].col, y + contacts[k].row)
  {
    if contacts == [] then false
    else
      CellAt(rocks, cols, x + contacts[0].col, y + contacts[0].row)
      || (assert forall k :: 0 <= k < |contacts[1..]| ==> contacts[1..][k] == contacts[k + 1];
          HasCollision(rocks, cols, x, y, contacts[1..]))
  }

  // ---------------------------------------------------------------------------
  // The falling brick

  /** The brick `current` holds and its position (its bottom-left cell). */
  datatype Falling = Falling(pattern: BrickPattern, x: nat, y: nat)

  /** The brick lies within the columns. */
  predicate InBounds(cols: nat, f: Falling) {
    WellFormed(f.pattern) && f.x + Width(f.pattern) <= cols
  }

  /** No cell of the brick is rock. */
  ghost predicate NoOverlap(rocks: seq<bool>, cols: nat, f: Falling) {
    forall c: nat, r: nat :: Filled(f.pattern, c, r) ==> !CellAt(rocks, cols, f.x + c, f.y + r)
  }

  /** What the simulation keeps: whole rows, and a falling brick whose
      contacts are sound, that lies within the columns and is not on rock. */
  ghost predicate Consistent(rocks: seq<bool>, cols: nat, current: Option<Falling>) {
    && 0 < cols && |rocks| % cols == 0
    && (current.Some? ==>
         Sound(current.value.pattern) && InBounds(cols, current.value) && NoOverlap(rocks, cols, current.value))
  }

  /** `push_brick`: a left jet moves the brick one column left unless it is
      at the wall or the cells its left contacts test are rock; a right jet
      likewise, against the right wall and the right contacts. */
  function PushedBrick(rocks: seq<bool>, cols: nat, f: Falling, jet: Jet): (g: Falling)
    requires WellFormed(f.pattern)
    ensures g.pattern == f.pattern && g.y == f.y
    ensures jet == Left ==> g.x == f.x || g.x + 1 == f.x
    ensures jet == Right ==> g.x == f.x || g.x == f.x + 1
    ensures jet == Right && g != f ==> g.x + Width(g.pattern) <= cols
  {
    match jet
    case Left =>
      if f.x == 0 || HasCollision(rocks, cols, f.x - 1, f.y, f.pattern.contactLeft) then f
      else f.(x := f.x - 1)
    case Right =>
      if cols <= f.x + Width(f.pattern) || HasCollision(rocks, cols, f.x + 1, f.y, f.pattern.contactRight) then f
      else f.(x := f.x + 1)
  }

  /** `drop_brick`'s test: the brick is not at the floor and the cells its
      down contacts test are free. */
  predicate CanFall(rocks: seq<bool>, cols: nat, f: Falling) {
    f.y != 0 && !HasCollision(rocks, cols, f.x, f.y - 1, f.pattern.contactDown)
  }

  /** A contact that the brick's contacts list tests is free when
      `has_collision` says none is rock. */
  lemma ContactFree(rocks: seq<bool>, cols: nat, x: nat, y: nat, contacts: seq<Contact>, c: nat, r: nat)
    requires !HasCollision(rocks, cols, x, y, contacts) && Contact(c, r) in contacts
    ensures !CellAt(rocks, cols, x + c, y + r)
  {
    var k :| 0 <= k < |contacts| && contacts[k] == Contact(c, r);
  }

  /** A push to the left that `push_brick` allows keeps the brick consistent. */
  lemma PushLeftKeepsConsistent(rocks: seq<bool>, cols: nat, f: Falling)
    requires Consistent(rocks, cols, Some(f)) && 0 < f.x
    requires !HasCollision(rocks, cols, f.x - 1, f.y, f.pattern.contactLeft)
    ensures Consistent(rocks, cols, Some(f.(x := f.x - 1)))
  {
    var g := f.(x := f.x - 1);
    forall c: nat, r: nat | Filled(g.pattern, c, r) ensures !CellAt(rocks, cols, g.x + c, g.y + r) {
      if Contact(c, r) in f.pattern.contactLeft {
        ContactFree(rocks, cols, g.x, g.y, f.pattern.contactLeft, c, r);
      } else {
        assert Filled(f.pattern, c - 1, r);
        assert f.x + (c - 1) == g.x + c;
      }
    }
  }

  /** A push to the right that `push_brick` allows keeps the brick consistent. */
  lemma PushRightKeepsConsistent(rocks: seq<bool>, cols: nat, f: Falling)
    requires Consistent(rocks, cols, Some(f)) && f.x + Width(f.pattern) < cols
    requires !HasCollision(rocks, cols, f.x + 1, f.y, f.pattern.contactRight)
    ensures Consistent(rocks, cols, Some(f.(x := f.x + 1)))
  {
    var g := f.(x := f.x + 1);
    forall c: nat, r: nat | Filled(g.pattern, c, r) ensures !CellAt(rocks, cols, g.x + c, g.y + r) {
      if Contact(c, r) in f.pattern.contactRight {
        ContactFree(rocks, cols, g.x, g.y, f.pattern.contactRight, c, r);
      } else {
        assert Filled(f.pattern, c + 1, r);
        assert f.x + (c + 1) == g.x + c;
      }
    }
  }

  /** A push keeps a consistent brick consistent: it stays within the
      walls and off the rocks. */
  lemma PushKeepsConsistent(rocks: seq<bool>, cols: nat, f: Falling, jet: Jet)
    requires Consistent(rocks, cols, Some(f))
    ensures Consistent(rocks, cols, Some(PushedBrick(rocks, cols, f, jet)))
  {
    var g := PushedBrick(rocks, cols, f, jet);
    if g != f {
      if jet == Left {
        PushLeftKeepsConsistent(rocks, cols, f);
      } else {
        PushRightKeepsConsistent(rocks, cols, f);
      }
    }
  }

  /** A fall that `drop_brick` allows keeps the brick consistent. */
  lemma DropKeepsConsistent(rocks: seq<bool>, cols: nat, f: Falling)
    requires Consistent(rocks, cols, Some(f)) && CanFall(rocks, cols, f)
    ensures Consistent(rocks, cols, Some(f.(y := f.y - 1)))
  {
    var g := f.(y := f.y - 1);
    forall c: nat, r: nat | Filled(g.pattern, c, r) ensures !CellAt(rocks, cols, g.x + c, g.y + r) {
      if Contact(c, r) in f.pattern.contactDown {
        ContactFree(rocks, cols, g.x, g.y, f.pattern.contactDown, c, r);
      } else {
        assert Filled(f.pattern, c, r - 1);
        assert f.y + (r - 1) == g.y + r;
      }
    }
  }

  /** Where a brick of `pattern` comes to rest: a consistent position from
      which `drop_brick` lets it fall no further. */
  ghost predicate Landed(rocks: seq<bool>, cols: nat, f: Falling, pattern: BrickPattern) {
    f.pattern == pattern && Consistent(rocks, cols, Some(f)) && !CanFall(rocks, cols, f)
  }

  /** The inner loop of `solve_for` on a brick: push it with jet `j`, and
      while it can fall drop it and go on with the next jet, the jets taken
      cyclically.  The brick where it comes to rest, and the next jet. */
  function Fall(rocks: seq<bool>, cols: nat, f: Falling, jets: seq<Jet>, j: nat): (r: (Falling, nat))
    requires WellFormed(f.pattern) && j < |jets|
    ensures r.0.pattern == f.pattern && r.0.y <= f.y && r.1 < |jets|
    ensures !CanFall(rocks, cols, r.0)
    decreases f.y
  {
    var p := PushedBrick(rocks, cols, f, jets[j]);
    var next := (j + 1) % |jets|;
    if CanFall(rocks, cols, p) then Fall(rocks, cols, p.(y := p.y - 1), jets, next) else (p, next)
  }

  /** A consistent brick comes to rest where `Landed` says: consistent and
      unable to fall. */
  lemma {:induction false} FallLands(rocks: seq<bool>, cols: nat, f: Falling, jets: seq<Jet>, j: nat)
    requires Consistent(rocks, cols, Some(f)) && j < |jets|
    ensures Landed(rocks, cols, Fall(rocks, cols, f, jets, j).0, f.pattern)
    decreases f.y
  {
    var p := PushedBrick(rocks, cols, f, jets[j]);
    PushKeepsConsistent(rocks, cols, f, jets[j]);
    if CanFall(rocks, cols, p) {
      DropKeepsConsistent(rocks, cols, p);
      FallLands(rocks, cols, p.(y := p.y - 1), jets, (j + 1) % |jets|);
    }
  }

  /** A brick placed two columns from the left wall and three rows above the
      stored rows is consistent, whichever of the five it is. */
  lemma SpawnIsConsistent(rocks: seq<bool>, cols: nat, i: nat, y: nat)
    requires 0 < cols && |rocks| % cols == 0 && 6 <= cols && i < |BrickPatterns| && Rows(rocks, cols) + 3 <= y
    ensures Consistent(rocks, cols, Some(Falling(BrickPatterns[i], 2, y)))
  {
    PatternsSound();
    var f := Falling(BrickPatterns[i], 2, y);
    assert Width(f.pattern) <= 4;
    forall c: nat, r: nat | Filled(f.pattern, c, r) ensures !CellAt(rocks, cols, f.x + c, f.y + r) {
      AboveIsEmpty(rocks, cols, f.x + c, f.y + r);
    }
  }

  /** The arena grown with empty rows until it holds `rowsRequired` rows. */
  function Extended(rocks: seq<bool>, cols: nat, rowsRequired: nat): seq<bool>
    requires 0 < cols
  {
    if Rows(rocks, cols) < rowsRequired then
      rocks + seq(cols * (rowsRequired - Rows(rocks, cols)), _ => false)
    else rocks
  }

  /** Growing keeps the rows whole, holds at least `rowsRequired` of them and
      adds only empty cells. */
  lemma ExtendedMeaning(rocks: seq<bool>, cols: nat, rowsRequired: nat, x: nat, y: nat)
    requires 0 < cols && |rocks| % cols == 0 && x < cols
    ensures var ext := Extended(rocks, cols, rowsRequired);
      && |ext| % cols == 0
      && Rows(ext, cols) == (if Rows(rocks, cols) < rowsRequired then rowsRequired else Rows(rocks, cols))
      && |ext| == Rows(ext, cols) * cols
      && CellAt(ext, cols, x, y) == CellAt(rocks, cols, x, y)
  {
    var rows := Rows(rocks, cols);
    RowsWhole(rocks, cols);
    if rows < rowsRequired {
      MulSubRight(rowsRequired, rows, cols);
      WholeRows(rowsRequired, cols);
    }
  }

  /** The first `c` cells of row `r` of the brick painted as rock into
      `buf`, in the order `freeze_brick` paints them. */
  function PaintRow(buf: seq<bool>, cols: nat, f: Falling, r: nat, c: nat): (b: seq<bool>)
    requires r < Height(f.pattern) && c <= |f.pattern.pattern[r]|
    ensures |b| == |buf|
  {
    if c == 0 then buf
    else
      var b := PaintRow(buf, cols, f, r, c - 1);
      var i := Idx(cols, f.x + c - 1, f.y + r);
      if f.pattern.pattern[r][c - 1] && i < |b| then b[i := true] else b
  }

  /** The rows of the brick below `r` painted as rock into `buf`. */
  function PaintRows(buf: seq<bool>, cols: nat, f: Falling, r: nat): (b: seq<bool>)
    requires r <= Height(f.pattern)
    ensures |b| == |buf|
  {
    if r == 0 then buf
    else PaintRow(PaintRows(buf, cols, f, r - 1), cols, f, r - 1, |f.pattern.pattern[r - 1]|)
  }

  /** The brick's cell (`c`, `r`) is stored inside a buffer tall enough for
      the brick. */
  lemma BrickCellStored(cols: nat, f: Falling, c: nat, r: nat, size: nat)
    requires InBounds(cols, f) && r < Height(f.pattern) && c < |f.pattern.pattern[r]|
    requires (f.y + Height(f.pattern)) * cols <= size
    ensures Idx(cols, f.x + c, f.y + r) < size
  {
    IndexBelow(f.x + c, f.y + r, cols, f.y + Height(f.pattern));
  }

  /** Painting part of a row turns exactly those of its cells into rock. */
  lemma {:induction false} PaintRowMeaning(buf: seq<bool>, cols: nat, f: Falling, r: nat, c: nat, x: nat, y: nat)
    requires InBounds(cols, f) && r < Height(f.pattern) && c <= |f.pattern.pattern[r]|
    requires (f.y + Height(f.pattern)) * cols <= |buf| && x < cols
    ensures CellAt(PaintRow(buf, cols, f, r, c), cols, x, y) ==
      (CellAt(buf, cols, x, y) || (y == f.y + r && f.x <= x < f.x + c && f.pattern.pattern[r][x - f.x]))
  {
    if c > 0 {
      PaintRowMeaning(buf, cols, f, r, c - 1, x, y);
      BrickCellStored(cols, f, c - 1, r, |buf|);
      if Idx(cols, x, y) == Idx(cols, f.x + c - 1, f.y + r) {
        IndexUnique(cols, x, y, f.x + c - 1, f.y + r);
      }
    }
  }

  /** Painting the rows below `r` turns exactly the brick's cells in those
      rows into rock. */
  lemma {:induction false} PaintRowsMeaning(buf: seq<bool>, cols: nat, f: Falling, r: nat, x: nat, y: nat)
    requires InBounds(cols, f) && r <= Height(f.pattern)
    requires (f.y + Height(f.pattern)) * cols <= |buf| && x < cols
    ensures CellAt(PaintRows(buf, cols, f, r), cols, x, y) ==
      (CellAt(buf, cols, x, y) || (f.y <= y < f.y + r && Filled(f.pattern, x - f.x, y - f.y)))
  {
    if r > 0 {
      PaintRowsMeaning(buf, cols, f, r - 1, x, y);
      PaintRowMeaning(PaintRows(buf, cols, f, r - 1), cols, f, r - 1, |f.pattern.pattern[r - 1]|, x, y);
    }
  }

  /** The arena after `freeze_brick`: grown to the brick's top row, with
      the brick's cells painted as rock row by row. */
  function Frozen(rocks: seq<bool>, cols: nat, f: Falling): seq<bool>
    requires 0 < cols
  {
    PaintRows(Extended(rocks, cols, f.y + Height(f.pattern)), cols, f, Height(f.pattern))
  }

  /** Freezing keeps the rows whole, makes room for the brick's rows, and
      turns exactly the brick's cells into rock. */
  lemma FrozenMeaning(rocks: seq<bool>, cols: nat, f: Falling, x: nat, y: nat)
    requires 0 < cols && |rocks| % cols == 0 && InBounds(cols, f) && x < cols
    ensures |Frozen(rocks, cols, f)| % cols == 0
    ensures Rows(Frozen(rocks, cols, f), cols) ==
      if Rows(rocks, cols) < f.y + Height(f.pattern) then f.y + Height(f.pattern) else Rows(rocks, cols)
    ensures CellAt(Frozen(rocks, cols, f), cols, x, y) == (CellAt(rocks, cols, x, y) || Filled(f.pattern, x - f.x, y - f.y))
  {
    var h := f.y + Height(f.pattern);
    ExtendedMeaning(rocks, cols, h, x, y);
    MulMonotone(h, Rows(Extended(rocks, cols, h), cols), cols);
    PaintRowsMeaning(Extended(rocks, cols, h), cols, f, Height(f.pattern), x, y);
  }

  /** The cell `freeze_brick` paints next is stored and still free. */
  lemma NextCellFree(rocks: seq<bool>, cols: nat, f: Falling, r: nat, c: nat)
    requires 0 < cols && |rocks| % cols == 0 && InBounds(cols, f) && NoOverlap(rocks, cols, f)
    requires r < Height(f.pattern) && c < |f.pattern.pattern[r]| && f.pattern.pattern[r][c]
    ensures var buf := PaintRow(PaintRows(Extended(rocks, cols, f.y + Height(f.pattern)), cols, f, r), cols, f, r, c);
      var i := Idx(cols, f.x + c, f.y + r);
      i < |buf| && !buf[i]
  {
    var h := f.y + Height(f.pattern);
    var ext := Extended(rocks, cols, h);
    var x, y := f.x + c, f.y + r;
    assert Filled(f.pattern, c, r);
    assert !CellAt(rocks, cols, x, y);
    ExtendedMeaning(rocks, cols, h, x, y);
    MulMonotone(h, Rows(ext, cols), cols);
    BrickCellStored(cols, f, c, r, |ext|);
    var painted := PaintRows(ext, cols, f, r);
    PaintRowsMeaning(ext, cols, f, r, x, y);
    assert !CellAt(painted, cols, x, y);
    PaintRowMeaning(painted, cols, f, r, c, x, y);
    assert !CellAt(PaintRow(painted, cols, f, r, c), cols, x, y);
  }

  // ---------------------------------------------------------------------------
  // The simulation state

  class State {
    const cols: nat
    var rocks: seq<bool>
    var current: Option<Falling>

    /** `State::new`: an empty arena and no falling brick. */
    constructor (cols: nat)
      ensures this.cols == cols && rocks == [] && current == None
    {
      this.cols := cols;
      rocks := [];
      current := None;
    }

    ghost predicate Valid()
      reads this
    {
      Consistent(rocks, cols, current)
    }

    /** `set_brick`: only when no brick is falling. */
    method SetBrick(pattern: BrickPattern, x: nat, y: nat)
      requires current == None
      modifies this
      ensures rocks == old(rocks) && current == Some(Falling(pattern, x, y))
    {
      current := Some(Falling(pattern, x, y));
    }

    /** `freeze_brick`: grow the arena to the brick's top row and turn the
        brick's cells into rock, each of which must still be free. */
    method FreezeBrick()
      requires 0 < cols && |rocks| % cols == 0
      requires current.Some? && InBounds(cols, current.value) && NoOverlap(rocks, cols, current.value)
      modifies this
      ensures rocks == Frozen(old(rocks), cols, old(current).value) && current == None
    {
      var f := current.value;
      current := None;
      var pattern, x, y := f.pattern, f.x, f.y;
      ghost var start := rocks;
      var rowsRequired := y + |pattern.pattern|;
      var rows := |rocks| / cols;
      if rows < rowsRequired {
        rocks := rocks + seq(cols * (rowsRequired - rows), _ => false);
      }
      assert rocks == Extended(start, cols, rowsRequired);
      for r := 0 to |pattern.pattern|
        invariant current == None
        invariant rocks == PaintRows(Extended(start, cols, rowsRequired), cols, f, r)
      {
        PaintBrickRow(f, r, start);
      }
    }

    /** The inner loop of `freeze_brick`: paint the rock cells of row `r` of
        the brick, left to right, each of which must still be free. */
    method PaintBrickRow(f: Falling, r: nat, ghost start: seq<bool>)
      requires 0 < cols && |start| % cols == 0 && InBounds(cols, f) && NoOverlap(start, cols, f)
      requires r < Height(f.pattern)
      requires rocks == PaintRows(Extended(start, cols, f.y + Height(f.pattern)), cols, f, r)
      modifies this
      ensures rocks == PaintRows(Extended(start, cols, f.y + Height(f.pattern)), cols, f, r + 1)
      ensures current == old(current)
    {
      ghost var painted := rocks;
      var row := f.pattern.pattern[r];
      for c := 0 to |row|
        invariant current == old(current)
        invariant rocks == PaintRow(painted, cols, f, r, c)
      {
        if row[c] {
          NextCellFree(start, cols, f, r, c);
          var idx := (f.x + c) + (f.y + r) * cols;
          rocks := rocks[idx := true];
        }
      }
    }

    /** `push_brick`: the brick moves as `PushedBrick` says; the rocks stay. */
    method PushBrick(jet: Jet)
      requires current.Some? && WellFormed(current.value.pattern)
      modifies this
      ensures rocks == old(rocks) && current == Some(PushedBrick(rocks, cols, old(current).value, jet))
      ensures old(Valid()) ==> Valid()
    {
      var f := current.value;
      if old(Valid()) {
        PushKeepsConsistent(rocks, cols, f, jet);
      }
      match jet {
        case Left =>
          if f.x == 0 || HasCollision(rocks, cols, f.x - 1, f.y, f.pattern.contactLeft) {
            return;
          }
          current := Some(f.(x := f.x - 1));
        case Right =>
          if cols <= f.x + |f.pattern.pattern[0]| || HasCollision(rocks, cols, f.x + 1, f.y, f.pattern.contactRight) {
            return;
          }
          current := Some(f.(x := f.x + 1));
      }
    }

    /** `drop_brick`: reports whether the brick can fall, and if so moves it
        one row down. */
    method DropBrick() returns (fell: bool)
      requires current.Some?
      modifies this
      ensures fell == CanFall(rocks, cols, old(current).value) && rocks == old(rocks)
      ensures current == if fell then Some(old(current).value.(y := old(current).value.y - 1)) else old(current)
      ensures old(Valid()) ==> Valid()
    {
      var f := current.value;
      if f.y == 0 || HasCollision(rocks, cols, f.x, f.y - 1, f.pattern.contactDown) {
        fell := false;
      } else {
        if old(Valid()) {
          DropKeepsConsistent(rocks, cols, f);
        }
        current := Some(f.(y := f.y - 1));
        fell := true;
      }
    }

    /** The loop over the jets in `solve_for`: push, then drop, until the
        brick can fall no further.  The brick ends where `Fall` puts it and
        the next jet is the one after the last used. */
    method BlowAndFall(jets: seq<Jet>, jetIdx: nat) returns (nextJet: nat)
      requires Valid() && current.Some? && WellFormed(current.value.pattern) && jetIdx < |jets|
      modifies this
      ensures Valid() && rocks == old(rocks)
      ensures var r := Fall(rocks, cols, old(current).value, jets, jetIdx);
        current == Some(r.0) && nextJet == r.1
    {
      ghost var target := Fall(rocks, cols, current.value, jets, jetIdx);
      ghost var pattern := current.value.pattern;
      nextJet := jetIdx;
      var falling := true;
      while falling
        invariant Valid() && current.Some? && current.value.pattern == pattern
        invariant rocks == old(rocks) && nextJet < |jets|
        invariant falling ==> Fall(rocks, cols, current.value, jets, nextJet) == target
        invariant !falling ==> current.value == target.0 && nextJet == target.1
        decreases current.value.y + if falling then 1 else 0
      {
        PushBrick(jets[nextJet]);
        nextJet := (nextJet + 1) % |jets|;
        falling := DropBrick();
      }
    }

    /** One brick of `solve_for`: place it, then push and drop it until it
        cannot fall, and freeze it; the jets are used cyclically. */
    method DropOne(jets: seq<Jet>, jetIdx: nat, brickNum: nat) returns (nextJet: nat, addedRows: nat)
      requires Valid() && current == None && 7 <= cols
      requires jetIdx < |jets| && brickNum < |BrickPatterns|
      modifies this
      ensures Valid() && current == None
      ensures var r := Fall(old(rocks), cols, Falling(BrickPatterns[brickNum], 2, Rows(old(rocks), cols) + 3), jets, jetIdx);
        rocks == Frozen(old(rocks), cols, r.0) && nextJet == r.1 && Landed(old(rocks), cols, r.0, BrickPatterns[brickNum])
      ensures Rows(rocks, cols) == Rows(old(rocks), cols) + addedRows
    {
      ghost var start := rocks;
      var y := |rocks| / cols + 3;
      SpawnIsConsistent(rocks, cols, brickNum, y);
      SetBrick(BrickPatterns[brickNum], 2, y);
      PatternsSound();
      FallLands(start, cols, Falling(BrickPatterns[brickNum], 2, y), jets, jetIdx);
      nextJet := BlowAndFall(jets, jetIdx);
      var rowsBefore := |rocks| / cols;
      ghost var f := current.value;
      FreezeBrick();
      FrozenMeaning(start, cols, f, 0, 0);
      assert Landed(start, cols, f, BrickPatterns[brickNum]);
      addedRows := |rocks| / cols - rowsBefore;
    }
  }
}
