/** Day 23: elves spreading out on an unbounded grid. Each round every elf
    with a neighbour proposes a move in the first of four directions, tried
    in a rotating order, whose three cells ahead are empty; a target that
    several elves propose is given up by all of them. */
module Day23 {
  import opened Common

  datatype Coord = Coord(x: int, y: int)

  // ---------------------------------------------------------------------------
  // Directions

  datatype Direction = N | NE | E | SE | S | SW | W | NW

  /** `Direction::idx`: the place of the direction going clockwise from
      north. */
  function Idx(d: Direction): (i: nat)
    ensures i < 8
  {
    match d
    case N => 0
    case NE => 1
    case E => 2
    case SE => 3
    case S => 4
    case SW => 5
    case W => 6
    case NW => 7
  }

  /** `Direction::all()[i]`, the inverse of `Idx`. */
  function FromIdx(i: nat): (d: Direction)
    requires i < 8
    ensures Idx(d) == i
  {
    [N, NE, E, SE, S, SW, W, NW][i]
  }

  lemma FromIdxOfIdx(d: Direction)
    ensures FromIdx(Idx(d)) == d
  {
  }

  /** `Direction::vec`: the offset one cell away; y grows to the south. */
  function Vec(d: Direction): Coord {
    match d
    case N => Coord(0, -1)
    case NE => Coord(1, -1)
    case E => Coord(1, 0)
    case SE => Coord(1, 1)
    case S => Coord(0, 1)
    case SW => Coord(-1, 1)
    case W => Coord(-1, 0)
    case NW => Coord(-1, -1)
  }

  /** `Direction::add_to`: the neighbour of `c` in direction `d`. */
  function AddTo(d: Direction, c: Coord): (r: Coord)
    ensures r.x - c.x == Vec(d).x && r.y - c.y == Vec(d).y
  {
    Coord(Vec(d).x + c.x, Vec(d).y + c.y)
  }

  /** Directions four places apart are opposite, and each offset is a
      step to one of the eight neighbours. */
  lemma OppositeDirections(d: Direction)
    ensures var o := Vec(FromIdx((Idx(d) + 4) % 8));
            o.x == -Vec(d).x && o.y == -Vec(d).y
    ensures -1 <= Vec(d).x <= 1 && -1 <= Vec(d).y <= 1 && Vec(d) != Coord(0, 0)
  {
  }

  /** `Direction::order_of_movement`. */
  const OrderOfMovement: seq<Direction> := [N, S, W, E]

  /** `Direction::to_try`: the four main directions, starting at the one
      `start` places on. */
  function ToTry(start: nat): (r: seq<Direction>)
    ensures |r| == 4
  {
    seq(4, i requires 0 <= i < 4 => OrderOfMovement[(i + start) % 4])
  }

  /** Whatever the round, the four tries are north, south, west and east,
      each once, in the same circular order. */
  lemma ToTryIsRotation(start: nat)
    ensures multiset(ToTry(start)) == multiset(OrderOfMovement)
    ensures ToTry(start) == OrderOfMovement[start % 4..] + OrderOfMovement[..start % 4]
  {
    var k := start % 4;
    var rotated := OrderOfMovement[k..] + OrderOfMovement[..k];
    forall i | 0 <= i < 4
      ensures ToTry(start)[i] == rotated[i]
    {
      ToTryAt(start, i);
    }
    assert ToTry(start) == rotated;
    assert OrderOfMovement == OrderOfMovement[..k] + OrderOfMovement[k..];
  }

  lemma ToTryAt(start: nat, i: nat)
    requires i < 4
    ensures ToTry(start)[i] == (OrderOfMovement[start % 4..] + OrderOfMovement[..start % 4])[i]
  {
    var k := start % 4;
    DivUnique(i + start, 4, start / 4 + (i + k) / 4, (i + k) % 4);
    if i < 4 - k {
      assert (OrderOfMovement[k..] + OrderOfMovement[..k])[i] == OrderOfMovement[i + k];
    } else {
      assert (OrderOfMovement[k..] + OrderOfMovement[..k])[i] == OrderOfMovement[i + k - 4];
    }
  }

  // ---------------------------------------------------------------------------
  // Proposals

  /** Which of the eight neighbours, in `Idx` order, hold an elf. */
  function Surrounding(elves: set<Coord>, elf: Coord): (s: seq<bool>)
    ensures |s| == 8
    ensures forall i :: 0 <= i < 8 ==> (s[i] <==> AddTo(FromIdx(i), elf) in elves)
  {
    seq(8, i requires 0 <= i < 8 => AddTo(FromIdx(i), elf) in elves)
  }

  /** The three cells towards `d`: the neighbours at offsets 7, 8 and 9
      (mod 8) from it. */
  predicate FreeTowards(s: seq<bool>, d: Direction)
    requires |s| == 8
  {
    !s[(7 + Idx(d)) % 8] && !s[(8 + Idx(d)) % 8] && !s[(9 + Idx(d)) % 8]
  }

  /** The cells that must be empty are `d` and its two neighbours on the
      compass. */
  lemma FreeTowardsCells(s: seq<bool>, d: Direction)
    requires |s| == 8
    ensures FreeTowards(s, d) <==> !s[(Idx(d) + 7) % 8] && !s[Idx(d)] && !s[(Idx(d) + 1) % 8]
  {
    var k := Idx(d);
    assert (8 + k) % 8 == k by { DivUnique(8 + k, 8, 1, k); }
    assert (9 + k) % 8 == (k + 1) % 8 by {
      if k < 7 { DivUnique(9 + k, 8, 1, k + 1); DivUnique(k + 1, 8, 0, k + 1); }
      else { DivUnique(9 + k, 8, 2, 0); DivUnique(k + 1, 8, 1, 0); }
    }
    assert (7 + k) % 8 == (k + 7) % 8;
  }

  /** The `find_map` over `dirs`: the cell towards the first direction with
      its three cells free. */
  function FirstFree(s: seq<bool>, elf: Coord, dirs: seq<Direction>): Option<Coord>
    requires |s| == 8
  {
    if dirs == [] then None
    else if FreeTowards(s, dirs[0]) then Some(AddTo(dirs[0], elf))
    else FirstFree(s, elf, dirs[1..])
  }

  /** `FirstFree` finds nothing exactly when no direction is free, and
      otherwise goes towards the first free one. */
  lemma {:induction false} FirstFreeMeaning(s: seq<bool>, elf: Coord, dirs: seq<Direction>)
    requires |s| == 8
    ensures var r := FirstFree(s, elf, dirs);
            (r.None? <==> forall i :: 0 <= i < |dirs| ==> !FreeTowards(s, dirs[i]))
            && (r.Some? ==> exists i :: 0 <= i < |dirs| && FreeTowards(s, dirs[i]) && r.value == AddTo(dirs[i], elf)
                                        && forall j :: 0 <= j < i ==> !FreeTowards(s, dirs[j]))
  {
    if dirs != [] && !FreeTowards(s, dirs[0]) {
      var rest := dirs[1..];
      FirstFreeMeaning(s, elf, rest);
      assert forall i :: 1 <= i < |dirs| ==> dirs[i] == rest[i - 1];
      var r := FirstFree(s, elf, rest);
      if r.Some? {
        var i :| 0 <= i < |rest| && FreeTowards(s, rest[i]) && r.value == AddTo(rest[i], elf)
                 && forall j :: 0 <= j < i ==> !FreeTowards(s, rest[j]);
        assert FreeTowards(s, dirs[i + 1]) && r.value == AddTo(dirs[i + 1], elf);
        assert forall j :: 0 <= j < i + 1 ==> !FreeTowards(s, dirs[j]);
      }
    }
  }

  /** No neighbour at all. */
  predicate Lonely(s: seq<bool>)
    requires |s| == 8
  {
    forall i :: 0 <= i < 8 ==> !s[i]
  }

  /** Two different cells at most one step apart on each axis. */
  predicate Touching(a: Coord, b: Coord) {
    a != b && -1 <= a.x - b.x <= 1 && -1 <= a.y - b.y <= 1
  }

  /** The direction whose offset is (`dx`, `dy`). */
  function DirectionOf(dx: int, dy: int): (d: Direction)
    requires -1 <= dx <= 1 && -1 <= dy <= 1 && (dx, dy) != (0, 0)
    ensures Vec(d) == Coord(dx, dy)
  {
    if dy == -1 then (if dx == -1 then NW else if dx == 0 then N else NE)
    else if dy == 0 then (if dx == -1 then W else E)
    else (if dx == -1 then SW else if dx == 0 then S else SE)
  }

  /** The eight places `Surrounding` looks at are exactly the cells
      touching the elf, so the elf counts as alone exactly when no other
      elf touches it. */
  lemma SurroundingMeaning(elves: set<Coord>, elf: Coord)
    ensures Lonely(Surrounding(elves, elf)) <==> forall e :: e in elves ==> !Touching(e, elf)
  {
    var s := Surrounding(elves, elf);
    forall i | 0 <= i < 8
      ensures Touching(AddTo(FromIdx(i), elf), elf)
    {
      OppositeDirections(FromIdx(i));
    }
    forall e | e in elves && Touching(e, elf)
      ensures !Lonely(s)
    {
      var d := DirectionOf(e.x - elf.x, e.y - elf.y);
      FromIdxOfIdx(d);
      assert AddTo(FromIdx(Idx(d)), elf) == e;
      assert s[Idx(d)];
    }
  }

  /** The move an elf suggests in round `start`, if any. */
  function Propose(elves: set<Coord>, elf: Coord, start: nat): (r: Option<Coord>)
    ensures Lonely(Surrounding(elves, elf)) ==> r.None?
  {
    var s := Surrounding(elves, elf);
    if Lonely(s) then None else FirstFree(s, elf, ToTry(start))
  }

  /** A proposal goes towards the first direction, in this round's order,
      whose three cells are free; with no such direction the elf stays. */
  lemma ProposeMeaning(elves: set<Coord>, elf: Coord, start: nat)
    requires !Lonely(Surrounding(elves, elf))
    ensures var s, r := Surrounding(elves, elf), Propose(elves, elf, start);
            (r.None? <==> forall i :: 0 <= i < 4 ==> !FreeTowards(s, ToTry(start)[i]))
            && (r.Some? ==> exists i :: 0 <= i < 4 && FreeTowards(s, ToTry(start)[i])
                                        && r.value == AddTo(ToTry(start)[i], elf)
                                        && forall j :: 0 <= j < i ==> !FreeTowards(s, ToTry(start)[j]))
  {
    FirstFreeMeaning(Surrounding(elves, elf), elf, ToTry(start));
  }

  /** An elf only proposes an empty cell. */
  lemma ProposalIsFree(elves: set<Coord>, elf: Coord, start: nat)
    requires Propose(elves, elf, start).Some?
    ensures Propose(elves, elf, start).value !in elves
  {
    var s := Surrounding(elves, elf);
    FirstFreeMeaning(s, elf, ToTry(start));
    var i :| 0 <= i < 4 && FreeTowards(s, ToTry(start)[i]) && Propose(elves, elf, start).value == AddTo(ToTry(start)[i], elf);
    FreeTowardsCells(s, ToTry(start)[i]);
    FromIdxOfIdx(ToTry(start)[i]);
  }

  /** `new_pos`: the proposed cell, or the elf's own; never another elf's
      cell. */
  function NewPos(elves: set<Coord>, elf: Coord, start: nat): (c: Coord)
    ensures c == elf || c !in elves
  {
    match Propose(elves, elf, start)
    case Some(c) => ProposalIsFree(elves, elf, start); c
    case None => elf
  }

  /** Every elf of `elves` has a target, its own cell or an empty one. */
  predicate FreeTargets(elves: set<Coord>, m: map<Coord, Coord>) {
    elves <= m.Keys && forall e :: e in elves ==> m[e] == e || m[e] !in elves
  }

  /** The new position of every elf of `rest` in round `start`: the keys
      of the suggestions map come from these. */
  ghost function TargetsOver(elves: set<Coord>, rest: set<Coord>, start: nat): (m: map<Coord, Coord>)
    ensures rest <= m.Keys
    decreases rest, 1
  {
    if rest == {} then map[]
    else
      var e :| e in rest;
      TargetsWith(elves, rest, start, e)
  }

  /** `TargetsOver` with `e` entered last. (A separate function, so that the
      verifier computes an elf's new position only when asked.) */
  ghost function TargetsWith(elves: set<Coord>, rest: set<Coord>, start: nat, e: Coord): (m: map<Coord, Coord>)
    requires e in rest
    ensures rest <= m.Keys
    decreases rest, 0
  {
    TargetsOver(elves, rest - {e}, start)[e := NewPos(elves, e, start)]
  }

  ghost function Targets(elves: set<Coord>, start: nat): (m: map<Coord, Coord>)
    ensures elves <= m.Keys
  {
    TargetsOver(elves, elves, start)
  }

  /** Each elf's entry is its `new_pos`. */
  lemma {:induction false} TargetsAt(elves: set<Coord>, rest: set<Coord>, start: nat, e: Coord)
    requires e in rest
    ensures TargetsOver(elves, rest, start)[e] == NewPos(elves, e, start)
    decreases rest
  {
    var x :| x in rest && TargetsOver(elves, rest, start) == TargetsWith(elves, rest, start, x);
    assert TargetsWith(elves, rest, start, x) == TargetsOver(elves, rest - {x}, start)[x := NewPos(elves, x, start)];
    if x != e {
      TargetsAt(elves, rest - {x}, start, e);
    }
  }

  /** Every elf stays or targets an empty cell. */
  lemma TargetsFree(elves: set<Coord>, start: nat)
    ensures FreeTargets(elves, Targets(elves, start))
  {
    forall e | e in elves
      ensures Targets(elves, start)[e] == e || Targets(elves, start)[e] !in elves
    {
      TargetsAt(elves, elves, start, e);
    }
  }

  // ---------------------------------------------------------------------------
  // Settling the targets

  /** The elves of `within` whose target is `t`: `origs` in the suggestions
      map. */
  function Proposers(m: map<Coord, Coord>, within: set<Coord>, t: Coord): set<Coord>
    requires within <= m.Keys
  {
    set f | f in within && m[f] == t
  }

  /** Where an elf is after the round: a sole proposer of its target moves
      there, every other elf stays. */
  function Dest(elves: set<Coord>, m: map<Coord, Coord>, e: Coord): Coord
    requires elves <= m.Keys && e in m
  {
    var t := m[e];
    if |Proposers(m, elves, t)| == 1 then t else e
  }

  /** The cells the elves of `within` end on. */
  function DestsOf(elves: set<Coord>, m: map<Coord, Coord>, within: set<Coord>): set<Coord>
    requires elves <= m.Keys && within <= m.Keys
  {
    set e | e in within :: Dest(elves, m, e)
  }

  /** Some elf ends on a cell other than its own. */
  predicate Moved(elves: set<Coord>, m: map<Coord, Coord>)
    requires elves <= m.Keys
  {
    exists e :: e in elves && Dest(elves, m, e) != e
  }

  /** The elves after round `start`. */
  ghost function Stepped(elves: set<Coord>, start: nat): set<Coord> {
    DestsOf(elves, Targets(elves, start), elves)
  }

  /** Some elf moves in round `start`. */
  ghost predicate AnyMoved(elves: set<Coord>, start: nat) {
    Moved(elves, Targets(elves, start))
  }

  /** An elf with no neighbour stays put. */
  lemma LonelyStays(elves: set<Coord>, e: Coord, start: nat)
    requires e in elves && Lonely(Surrounding(elves, e))
    ensures Dest(elves, Targets(elves, start), e) == e
  {
    TargetsAt(elves, elves, start, e);
  }

  /** All proposers of a disputed target stay where they are. */
  lemma DisputedStay(elves: set<Coord>, m: map<Coord, Coord>, e: Coord)
    requires e in elves && elves <= m.Keys && |Proposers(m, elves, m[e])| > 1
    ensures Dest(elves, m, e) == e
  {
  }

  /** A sole proposer moves to its target. */
  lemma SoleProposerMoves(elves: set<Coord>, m: map<Coord, Coord>, e: Coord)
    requires e in elves && elves <= m.Keys
    requires forall f :: f in elves && f != e ==> m[f] != m[e]
    ensures Dest(elves, m, e) == m[e]
  {
    assert Proposers(m, elves, m[e]) == {e};
  }

  lemma SingletonOnly<T>(s: set<T>, a: T, b: T)
    requires |s| == 1 && a in s && b in s
    ensures a == b
  {
    if a != b {
      assert {a, b} <= s;
      assert |{a, b}| == 2;
      SubsetCard({a, b}, s);
    }
  }

  lemma {:induction false} SubsetCard<T>(a: set<T>, b: set<T>)
    requires a <= b
    ensures |a| <= |b|
    decreases |b|
  {
    if a != {} {
      var x :| x in a;
      SubsetCard(a - {x}, b - {x});
    }
  }

  /** Two elves never end on the same cell. */
  lemma DestInjective(elves: set<Coord>, m: map<Coord, Coord>, e1: Coord, e2: Coord)
    requires FreeTargets(elves, m) && e1 in elves && e2 in elves && Dest(elves, m, e1) == Dest(elves, m, e2)
    ensures e1 == e2
  {
    var p1, p2 := Proposers(m, elves, m[e1]), Proposers(m, elves, m[e2]);
    assert e1 in p1 && e2 in p2;
    if |p1| == 1 && |p2| == 1 {
      if m[e1] == m[e2] {
        SingletonOnly(p1, e1, e2);
      }
    }
  }

  /** The cells the elves of `within` end on are as many as the elves. */
  lemma {:induction false} DestsCount(elves: set<Coord>, m: map<Coord, Coord>, within: set<Coord>)
    requires FreeTargets(elves, m) && within <= elves
    ensures |DestsOf(elves, m, within)| == |within|
    decreases |within|
  {
    if within != {} {
      var x :| x in within;
      var rest := within - {x};
      DestsCount(elves, m, rest);
      assert DestsOf(elves, m, within) == DestsOf(elves, m, rest) + {Dest(elves, m, x)};
      if Dest(elves, m, x) in DestsOf(elves, m, rest) {
        var y :| y in rest && Dest(elves, m, y) == Dest(elves, m, x);
        DestInjective(elves, m, x, y);
      }
    }
  }

  /** A round neither adds nor loses elves. */
  lemma StepKeepsCount(elves: set<Coord>, start: nat)
    ensures |Stepped(elves, start)| == |elves|
  {
    TargetsFree(elves, start);
    DestsCount(elves, Targets(elves, start), elves);
  }

  /** Some elf moves exactly when the set of occupied cells changes. */
  lemma MovedIffChanged(elves: set<Coord>, m: map<Coord, Coord>)
    requires FreeTargets(elves, m)
    ensures Moved(elves, m) <==> DestsOf(elves, m, elves) != elves
  {
    if Moved(elves, m) {
      var e :| e in elves && Dest(elves, m, e) != e;
      assert Dest(elves, m, e) !in elves;
      assert Dest(elves, m, e) in DestsOf(elves, m, elves);
    } else {
      assert DestsOf(elves, m, elves) == elves;
    }
  }

  /** `step`'s result: some elf moved exactly when the elves changed. */
  lemma AnyMovedIffChanged(elves: set<Coord>, start: nat)
    ensures AnyMoved(elves, start) <==> Stepped(elves, start) != elves
  {
    TargetsFree(elves, start);
    MovedIffChanged(elves, Targets(elves, start));
  }

  // ---------------------------------------------------------------------------
  // The round on the suggestions map

  function Elems(s: seq<Coord>): set<Coord> {
    set x | x in s
  }

  /** `origs` lists, once each, the elves of `done` proposing `t`, and
      there is at least one. */
  ghost predicate Lists(m: map<Coord, Coord>, done: set<Coord>, origs: seq<Coord>, t: Coord)
    requires done <= m.Keys
  {
    |origs| == |Proposers(m, done, t)| > 0 && Elems(origs) == Proposers(m, done, t)
  }

  /** The suggestions map after the elves of `done` are entered: each
      target lists its proposers, and each elf's target is listed. */
  ghost predicate Suggests(m: map<Coord, Coord>, done: set<Coord>, sugg: map<Coord, seq<Coord>>)
    requires done <= m.Keys
  {
    (forall t {:trigger Lists(m, done, sugg[t], t)} :: t in sugg ==> Lists(m, done, sugg[t], t))
    && forall e :: e in done ==> m[e] in sugg
  }

  /** Entering one more elf under its target keeps `Suggests`. */
  lemma SuggestsAdd(m: map<Coord, Coord>, done: set<Coord>, sugg: map<Coord, seq<Coord>>, elf: Coord)
    requires done <= m.Keys && elf in m && elf !in done && Suggests(m, done, sugg)
    ensures var t := m[elf];
            var origs := if t in sugg then sugg[t] else [];
            Suggests(m, done + {elf}, sugg[t := origs + [elf]])
  {
    var t := m[elf];
    var origs := if t in sugg then sugg[t] else [];
    var sugg' := sugg[t := origs + [elf]];
    var done' := done + {elf};
    forall u | u in sugg'
      ensures Lists(m, done', sugg'[u], u)
    {
      if u == t {
        if t in sugg {
          assert Lists(m, done, sugg[t], t);
        }
        EnterProposer(m, done, elf, origs);
      } else {
        assert Lists(m, done, sugg[u], u);
        OtherProposers(m, done, elf, u);
      }
    }
  }

  /** The list under the elf's own target grows by the elf. */
  lemma EnterProposer(m: map<Coord, Coord>, done: set<Coord>, elf: Coord, origs: seq<Coord>)
    requires done <= m.Keys && elf in m && elf !in done
    requires |origs| == |Proposers(m, done, m[elf])| && Elems(origs) == Proposers(m, done, m[elf])
    ensures Lists(m, done + {elf}, origs + [elf], m[elf])
  {
    assert Proposers(m, done + {elf}, m[elf]) == Proposers(m, done, m[elf]) + {elf};
    assert Elems(origs + [elf]) == Elems(origs) + {elf};
  }

  /** The other lists are unchanged. */
  lemma OtherProposers(m: map<Coord, Coord>, done: set<Coord>, elf: Coord, u: Coord)
    requires done <= m.Keys && elf in m && m[elf] != u
    ensures Proposers(m, done + {elf}, u) == Proposers(m, done, u)
  {
  }

  /** The elves whose target is in `visited`. */
  function Within(elves: set<Coord>, m: map<Coord, Coord>, visited: set<Coord>): set<Coord>
    requires elves <= m.Keys
  {
    set e | e in elves && m[e] in visited
  }

  /** Every elf's target has a list. */
  lemma WithinAll(elves: set<Coord>, m: map<Coord, Coord>, sugg: map<Coord, seq<Coord>>)
    requires elves <= m.Keys && Suggests(m, elves, sugg)
    ensures Within(elves, m, sugg.Keys) == elves
  {
  }

  /** Turning one more target's list into elves: a single proposer lands on
      the target, several stay on their own cells. */
  lemma DestsAdd(elves: set<Coord>, m: map<Coord, Coord>, visited: set<Coord>, pos: Coord, origs: seq<Coord>)
    requires elves <= m.Keys
    requires Lists(m, elves, origs, pos)
    ensures DestsOf(elves, m, Within(elves, m, visited + {pos}))
            == DestsOf(elves, m, Within(elves, m, visited)) + if |origs| == 1 then {pos} else Elems(origs)
    ensures (exists e :: e in Within(elves, m, visited + {pos}) && Dest(elves, m, e) != e)
            <==> (exists e :: e in Within(elves, m, visited) && Dest(elves, m, e) != e)
                 || (|origs| == 1 && pos != origs[0])
  {
    var p := Proposers(m, elves, pos);
    assert Within(elves, m, visited + {pos}) == Within(elves, m, visited) + p;
    assert DestsOf(elves, m, Within(elves, m, visited) + p)
           == DestsOf(elves, m, Within(elves, m, visited)) + DestsOf(elves, m, p);
    if |origs| == 1 {
      assert origs[0] in p;
      forall e | e in p ensures e == origs[0] { SingletonOnly(p, e, origs[0]); }
      assert DestsOf(elves, m, p) == {pos};
    } else {
      assert DestsOf(elves, m, p) == p;
    }
  }

  /** `State`: the set of occupied cells. */
  class State {
    var elves: set<Coord>

    /** The state `part_1` and `part_2` start from. */
    constructor (input: seq<Coord>)
      ensures elves == Initial(input)
    {
      elves := set c | c in input;
    }

    /** `State::step`: one round. It reports whether any elf moved. */
    method Step(startFromDirection: nat) returns (anyMoved: bool)
      modifies this
      ensures elves == Stepped(old(elves), startFromDirection)
      ensures anyMoved <==> AnyMoved(old(elves), startFromDirection)
    {
      var allSuggestions := Suggestions(elves, startFromDirection);
      var newElves: set<Coord>;
      newElves, anyMoved := Settle(elves, Targets(elves, startFromDirection), allSuggestions);
      elves := newElves;
    }

    /** `calc_empty_ground`: the empty cells of the bounding box. */
    method CalcEmptyGround() returns (empty: int)
      requires elves != {}
      ensures forall box :: Tight(elves, box) ==> empty == Area(box) - |elves|
    {
      var box := Limits(elves);
      TightUnique(elves, box);
      empty := (box.maxX + 1 - box.minX) * (box.maxY + 1 - box.minY) - |elves|;
    }
  }

  /** The elves of the input. */
  function Initial(input: seq<Coord>): set<Coord> {
    set c | c in input
  }

  /** The first loop of `step`: every elf entered under its new position. */
  method Suggestions(elves: set<Coord>, start: nat) returns (sugg: map<Coord, seq<Coord>>)
    ensures Suggests(Targets(elves, start), elves, sugg)
  {
    ghost var m := Targets(elves, start);
    sugg := map[];
    var remaining := elves;
    ghost var done: set<Coord> := {};
    while remaining != {}
      invariant done == elves - remaining && remaining <= elves
      invariant Suggests(m, done, sugg)
      decreases |remaining|
    {
      var elf :| elf in remaining;
      var newPos := NewPos(elves, elf, start);
      TargetsAt(elves, elves, start, elf);
      var origs := if newPos in sugg then sugg[newPos] else [];
      SuggestsAdd(m, done, sugg, elf);
      sugg := sugg[newPos := origs + [elf]];
      remaining := remaining - {elf};
      done := done + {elf};
    }
    assert done == elves;
  }

  /** The second part of `step`: each target becomes its single proposer's
      new cell, or the cells of all its proposers. */
  method Settle(elves: set<Coord>, ghost m: map<Coord, Coord>, sugg: map<Coord, seq<Coord>>)
    returns (newElves: set<Coord>, anyMoved: bool)
    requires elves <= m.Keys && Suggests(m, elves, sugg)
    ensures newElves == DestsOf(elves, m, elves)
    ensures anyMoved <==> Moved(elves, m)
  {
    newElves := {};
    anyMoved := false;
    var todo := sugg.Keys;
    ghost var visited: set<Coord> := {};
    assert Within(elves, m, visited) == {};
    while todo != {}
      invariant visited == sugg.Keys - todo && todo <= sugg.Keys
      invariant newElves == DestsOf(elves, m, Within(elves, m, visited))
      invariant anyMoved <==> exists e :: e in Within(elves, m, visited) && Dest(elves, m, e) != e
      decreases |todo|
    {
      var pos :| pos in todo;
      var origs := sugg[pos];
      assert Lists(m, elves, origs, pos);
      DestsAdd(elves, m, visited, pos, origs);
      if |origs| == 1 {
        if pos != origs[0] {
          anyMoved := true;
        }
        newElves := newElves + {pos};
      } else {
        newElves := newElves + Elems(origs);
      }
      todo := todo - {pos};
      visited := visited + {pos};
    }
    WithinAll(elves, m, sugg);
  }

  // ---------------------------------------------------------------------------
  // The bounding box

  datatype Box = Box(minX: int, maxX: int, minY: int, maxY: int)

  /** `limits`: the smallest box holding every elf, each side touching one. */
  ghost predicate Tight(elves: set<Coord>, box: Box) {
    (forall e :: e in elves ==> box.minX <= e.x <= box.maxX && box.minY <= e.y <= box.maxY)
    && (exists e :: e in elves && e.x == box.minX) && (exists e :: e in elves && e.x == box.maxX)
    && (exists e :: e in elves && e.y == box.minY) && (exists e :: e in elves && e.y == box.maxY)
  }

  /** The number of cells of a box. */
  function Area(box: Box): int {
    (box.maxX + 1 - box.minX) * (box.maxY + 1 - box.minY)
  }

  /** There is only one tight box. */
  lemma TightUnique(elves: set<Coord>, box: Box)
    requires Tight(elves, box)
    ensures forall other :: Tight(elves, other) ==> other == box
  {
  }

  /** The `minmax` over both coordinates. */
  method Limits(elves: set<Coord>) returns (box: Box)
    requires elves != {}
    ensures Tight(elves, box)
  {
    var first :| first in elves;
    box := Box(first.x, first.x, first.y, first.y);
    var remaining := elves - {first};
    while remaining != {}
      invariant remaining <= elves && first !in remaining
      invariant Tight(elves - remaining, box)
      decreases |remaining|
    {
      var e :| e in remaining;
      box := Box(if e.x < box.minX then e.x else box.minX, if e.x > box.maxX then e.x else box.maxX,
                 if e.y < box.minY then e.y else box.minY, if e.y > box.maxY then e.y else box.maxY);
      remaining := remaining - {e};
    }
  }

  // ---------------------------------------------------------------------------
  // The puzzle

  /** `n` applications of a round function, starting with the round
      numbered `k`; each round is given its number. */
  ghost function Iterate(step: (set<Coord>, nat) -> set<Coord>, elves: set<Coord>, k: nat, n: nat): set<Coord>
    decreases n, 0
  {
    if n == 0 then elves else IterateAfter(step, elves, k, n - 1)
  }

  /** Round `k`, then `n` more. (A separate function, so that the verifier
      unfolds one round at a time.) */
  ghost function IterateAfter(step: (set<Coord>, nat) -> set<Coord>, elves: set<Coord>, k: nat, n: nat): set<Coord>
    decreases n, 1
  {
    Iterate(step, step(elves, k), k + 1, n)
  }

  /** A round function that keeps the number of elves keeps it over any
      number of rounds. */
  lemma {:induction false} IterateKeepsCount(step: (set<Coord>, nat) -> set<Coord>, elves: set<Coord>, k: nat, n: nat)
    requires forall x, j :: |step(x, j)| == |x|
    ensures |Iterate(step, elves, k, n)| == |elves|
    decreases n
  {
    if n > 0 {
      IterateKeepsCount(step, step(elves, k), k + 1, n - 1);
      assert Iterate(step, elves, k, n) == Iterate(step, step(elves, k), k + 1, n - 1);
    }
  }

  /** The elves after `n` rounds, numbered from 0. */
  ghost function Rounds(elves: set<Coord>, n: nat): set<Coord> {
    Iterate(Stepped, elves, 0, n)
  }

  /** Rounds never change how many elves there are. */
  lemma RoundsKeepCount(elves: set<Coord>, n: nat)
    ensures |Rounds(elves, n)| == |elves|
  {
    forall x, k ensures |Stepped(x, k)| == |x| {
      StepKeepsCount(x, k);
    }
    IterateKeepsCount(Stepped, elves, 0, n);
  }

  /** `part_1`: the empty ground in the bounding box after ten rounds. */
  method Part1(input: seq<Coord>) returns (empty: int)
    requires |input| > 0
    ensures var final := Rounds(Initial(input), 10);
            forall box :: Tight(final, box) ==> empty == Area(box) - |final|
  {
    var state := new State(input);
    ghost var initial := Initial(input);
    for i := 0 to 10
      invariant Iterate(Stepped, state.elves, i, 10 - i) == Rounds(initial, 10)
    {
      var _ := state.Step(i);
    }
    assert input[0] in initial;
    RoundsKeepCount(initial, 10);
    empty := state.CalcEmptyGround();
  }

  /** The search of `part_2`, from the round numbered `k` and for at most
      `fuel` rounds: the number of the first round after which `moved`
      fails, counting from 1. */
  ghost function FirstStill(step: (set<Coord>, nat) -> set<Coord>, moved: (set<Coord>, nat) -> bool,
                            elves: set<Coord>, k: nat, fuel: nat): Option<nat>
    decreases fuel, 0
  {
    if fuel == 0 then None
    else if !moved(elves, k) then Some(k + 1)
    else StillAfter(step, moved, elves, k, fuel - 1)
  }

  /** The search after round `k`, in which `moved` held. (A separate
      function, so that the verifier unfolds one round at a time.) */
  ghost function StillAfter(step: (set<Coord>, nat) -> set<Coord>, moved: (set<Coord>, nat) -> bool,
                            elves: set<Coord>, k: nat, fuel: nat): Option<nat>
    decreases fuel, 1
  {
    FirstStill(step, moved, step(elves, k), k + 1, fuel)
  }

  /** The search finds the first round, within its fuel, in which `moved`
      fails, or reports that it held in every round. */
  lemma {:induction false} FirstStillMeaning(step: (set<Coord>, nat) -> set<Coord>, moved: (set<Coord>, nat) -> bool,
                                             elves: set<Coord>, k: nat, fuel: nat)
    ensures var r := FirstStill(step, moved, elves, k, fuel);
            r.Some? ==> k < r.value <= k + fuel && !moved(Iterate(step, elves, k, r.value - 1 - k), r.value - 1)
                        && forall j :: 0 <= j < r.value - 1 - k ==> moved(Iterate(step, elves, k, j), k + j)
    ensures var r := FirstStill(step, moved, elves, k, fuel);
            r.None? ==> forall j :: 0 <= j < fuel ==> moved(Iterate(step, elves, k, j), k + j)
    decreases fuel
  {
    if fuel > 0 && moved(elves, k) {
      var next := step(elves, k);
      FirstStillMeaning(step, moved, next, k + 1, fuel - 1);
      assert FirstStill(step, moved, elves, k, fuel) == FirstStill(step, moved, next, k + 1, fuel - 1);
      forall j | 1 <= j
        ensures Iterate(step, elves, k, j) == Iterate(step, next, k + 1, j - 1)
      {
        assert Iterate(step, elves, k, j) == IterateAfter(step, elves, k, j - 1);
      }
      assert Iterate(step, elves, k, 0) == elves;
    }
  }

  /** `part_2`: the number of the first round in which no elf moves,
      searching at most `maxRounds` rounds. */
  method Part2(input: seq<Coord>, maxRounds: nat) returns (answer: Option<nat>)
    ensures answer.Some? ==> var r := answer.value;
            1 <= r <= maxRounds && !AnyMoved(Rounds(Initial(input), r - 1), r - 1)
            && forall i :: 0 <= i < r - 1 ==> AnyMoved(Rounds(Initial(input), i), i)
    ensures answer.None? ==> forall i :: 0 <= i < maxRounds ==> AnyMoved(Rounds(Initial(input), i), i)
  {
    var state := new State(input);
    ghost var initial := Initial(input);
    for i := 0 to maxRounds
      invariant FirstStill(Stepped, AnyMoved, state.elves, i, maxRounds - i)
                == FirstStill(Stepped, AnyMoved, initial, 0, maxRounds)
    {
      var anyMoved := state.Step(i);
      if !anyMoved {
        answer := Some(i + 1);
        FirstStillMeaning(Stepped, AnyMoved, initial, 0, maxRounds);
        return;
      }
    }
    answer := None;
    FirstStillMeaning(Stepped, AnyMoved, initial, 0, maxRounds);
  }
}
