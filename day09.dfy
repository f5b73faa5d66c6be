/** Day 9: rope bridge.  The head of a rope of knots moves one step at a
    time; every other knot follows the knot before it. */
module Day9 {

  datatype Direction = Left | Right | Up | Down

  datatype Pos = Pos(x: int, y: int)

  datatype MovementInstruction = MovementInstruction(amount: nat, direction: Direction)

  function Abs(n: int): nat { if n < 0 then -n else n }

  function Signum(n: int): int { if n < 0 then -1 else if n == 0 then 0 else 1 }

  function Add(a: Pos, b: Pos): Pos { Pos(a.x + b.x, a.y + b.y) }

  /** `as_vec2`: a unit vector along one axis. */
  function AsVec2(d: Direction): (v: Pos)
    ensures Abs(v.x) + Abs(v.y) == 1
    ensures d == Left <==> v.x < 0
    ensures d == Right <==> v.x > 0
    ensures d == Up <==> v.y > 0
    ensures d == Down <==> v.y < 0
  {
    match d
    case Left => Pos(-1, 0)
    case Right => Pos(1, 0)
    case Up => Pos(0, 1)
    case Down => Pos(0, -1)
  }

  /** Two knots touch when they are at most one apart on each axis. */
  predicate Touching(a: Pos, b: Pos) { Abs(a.x - b.x) <= 1 && Abs(a.y - b.y) <= 1 }

  /** At most `n` apart on each axis. */
  predicate Within(a: Pos, b: Pos, n: nat) { Abs(a.x - b.x) <= n && Abs(a.y - b.y) <= n }

  /** Where knot `tail` goes once the knot before it is at `head`: it stays
      when they touch, otherwise it steps by the sign of the difference on
      each axis. */
  function Follow(head: Pos, tail: Pos): Pos {
    if Touching(head, tail) then tail
    else Pos(tail.x + Signum(head.x - tail.x), tail.y + Signum(head.y - tail.y))
  }

  /** A following knot moves at most one step on each axis, and a knot at
      most two away on each axis ends up touching the knot it follows. */
  lemma FollowProperties(head: Pos, tail: Pos)
    ensures Within(Follow(head, tail), tail, 1)
    ensures Within(head, tail, 2) ==> Touching(head, Follow(head, tail))
  {
  }

  /** The first `n` knots after the head of `knots` moved one step in
      direction `d`. */
  function Moved(knots: seq<Pos>, d: Direction, n: nat): (r: seq<Pos>)
    requires 1 <= n <= |knots|
    ensures |r| == n
  {
    if n == 1 then [Add(knots[0], AsVec2(d))]
    else
      var prefix := Moved(knots, d, n - 1);
      prefix + [Follow(prefix[n - 2], knots[n - 1])]
  }

  /** The rope after one `move_head` step. */
  function MoveRope(knots: seq<Pos>, d: Direction): (r: seq<Pos>)
    requires |knots| >= 1
  {
    Moved(knots, d, |knots|)
  }

  predicate AllTouching(knots: seq<Pos>) {
    forall i :: 1 <= i < |knots| ==> Touching(knots[i - 1], knots[i])
  }

  lemma {:induction false} MovedKeepsTouching(knots: seq<Pos>, d: Direction, n: nat)
    requires 1 <= n <= |knots| && AllTouching(knots)
    ensures AllTouching(Moved(knots, d, n))
    ensures Within(Moved(knots, d, n)[n - 1], knots[n - 1], 1)
  {
    if n > 1 {
      MovedKeepsTouching(knots, d, n - 1);
      var prefix := Moved(knots, d, n - 1);
      var lead := prefix[n - 2];
      assert Touching(knots[n - 2], knots[n - 1]);
      assert Within(lead, knots[n - 1], 2);
      FollowProperties(lead, knots[n - 1]);
      var r := Moved(knots, d, n);
      assert forall i :: 0 <= i < n - 1 ==> r[i] == prefix[i];
    }
  }

  /** The head moves by exactly the direction vector, the rope keeps its
      length, and a rope whose consecutive knots all touch still has all
      of them touching after the move. */
  lemma MoveRopeProperties(knots: seq<Pos>, d: Direction)
    requires |knots| >= 1
    ensures |MoveRope(knots, d)| == |knots|
    ensures MoveRope(knots, d)[0] == Add(knots[0], AsVec2(d))
    ensures AllTouching(knots) ==> AllTouching(MoveRope(knots, d))
  {
    MovedHead(knots, d, |knots|);
    if AllTouching(knots) {
      MovedKeepsTouching(knots, d, |knots|);
    }
  }

  lemma {:induction false} MovedHead(knots: seq<Pos>, d: Direction, n: nat)
    requires 1 <= n <= |knots|
    ensures Moved(knots, d, n)[0] == Add(knots[0], AsVec2(d))
  {
    if n > 1 {
      MovedHead(knots, d, n - 1);
    }
  }

  class State {
    var nodes: seq<Pos>

    /** `State::new`: `size` knots, all at the origin. */
    constructor (size: nat)
      ensures |nodes| == size && forall i :: 0 <= i < size ==> nodes[i] == Pos(0, 0)
    {
      nodes := seq(size, _ => Pos(0, 0));
    }

    function Tail(): Pos
      reads this
      requires |nodes| >= 1
    {
      nodes[|nodes| - 1]
    }

    /** `move_head`: moves the head one step, then lets every later knot
      follow, in order. */
    method MoveHead(direction: Direction)
      requires |nodes| >= 1
      modifies this
      ensures nodes == MoveRope(old(nodes), direction)
    {
      ghost var start := nodes;
      var vel := AsVec2(direction);
      nodes := nodes[0 := Add(nodes[0], vel)];
      for idx := 1 to |nodes|
        invariant |nodes| == |start|
        invariant nodes == Moved(start, direction, idx) + start[idx..]
      {
        var head := nodes[idx - 1];
        var tail := nodes[idx];
        var touching := Abs(head.x - tail.x) <= 1 && Abs(head.y - tail.y) <= 1;
        if !touching {
          tail := Pos(tail.x + Signum(head.x - tail.x), tail.y + Signum(head.y - tail.y));
        }
        MovedStep(start, direction, idx, nodes, tail);
        nodes := nodes[idx := tail];
      }
    }
  }

  /** One more knot follows. */
  lemma MovedStep(start: seq<Pos>, d: Direction, idx: nat, nodes: seq<Pos>, tail: Pos)
    requires 1 <= idx < |start| && nodes == Moved(start, d, idx) + start[idx..]
    requires tail == Follow(nodes[idx - 1], nodes[idx])
    ensures nodes[idx := tail] == Moved(start, d, idx + 1) + start[idx + 1..]
  {
    var prefix := Moved(start, d, idx);
    assert nodes[idx - 1] == prefix[idx - 1] && nodes[idx] == start[idx];
    assert Moved(start, d, idx + 1) == prefix + [tail];
  }

  /** `n` copies of one step. */
  function Repeat(d: Direction, n: nat): (r: seq<Direction>)
    ensures |r| == n && forall i :: 0 <= i < n ==> r[i] == d
  {
    if n == 0 then [] else Repeat(d, n - 1) + [d]
  }

  /** The unit steps the instructions spell out, in order. */
  function Steps(input: seq<MovementInstruction>): seq<Direction> {
    if input == [] then []
    else
      var last := input[|input| - 1];
      Steps(input[..|input| - 1]) + Repeat(last.direction, last.amount)
  }

  function Origin(size: nat): seq<Pos> { seq(size, _ => Pos(0, 0)) }

  /** The rope after taking `steps`. */
  function Run(knots: seq<Pos>, steps: seq<Direction>): (r: seq<Pos>)
    requires |knots| >= 1
    ensures |r| == |knots|
  {
    if steps == [] then knots
    else
      var before := Run(knots, steps[..|steps| - 1]);
      MoveRopeProperties(before, steps[|steps| - 1]);
      MoveRope(before, steps[|steps| - 1])
  }

  /** The tail positions recorded after each step. */
  function TailTrail(knots: seq<Pos>, steps: seq<Direction>): set<Pos>
    requires |knots| >= 1
  {
    if steps == [] then {}
    else
      var after := Run(knots, steps);
      TailTrail(knots, steps[..|steps| - 1]) + {after[|after| - 1]}
  }

  /** A rope that starts with all knots touching keeps them touching
      whatever the steps. */
  lemma {:induction false} RunKeepsTouching(knots: seq<Pos>, steps: seq<Direction>)
    requires |knots| >= 1 && AllTouching(knots)
    ensures AllTouching(Run(knots, steps))
  {
    if steps != [] {
      RunKeepsTouching(knots, steps[..|steps| - 1]);
      MoveRopeProperties(Run(knots, steps[..|steps| - 1]), steps[|steps| - 1]);
    }
  }

  /** In particular a rope that starts with every knot at the origin. */
  lemma OriginRopeTouches(size: nat, steps: seq<Direction>)
    requires size >= 1
    ensures AllTouching(Run(Origin(size), steps))
  {
    RunKeepsTouching(Origin(size), steps);
  }

  /** The first recorded tail positions do not depend on later steps. */
  lemma {:induction false} TailTrailGrows(knots: seq<Pos>, steps: seq<Direction>, more: seq<Direction>)
    requires |knots| >= 1
    ensures TailTrail(knots, steps) <= TailTrail(knots, steps + more)
    decreases |more|
  {
    if more != [] {
      var init := more[..|more| - 1];
      TailTrailGrows(knots, steps, init);
      assert (steps + more)[..|steps + more| - 1] == steps + init;
    } else {
      assert steps + more == steps;
    }
  }

  lemma RunSnoc(knots: seq<Pos>, steps: seq<Direction>, d: Direction)
    requires |knots| >= 1
    ensures Run(knots, steps + [d]) == MoveRope(Run(knots, steps), d)
    ensures TailTrail(knots, steps + [d]) == TailTrail(knots, steps) + {Run(knots, steps + [d])[|knots| - 1]}
  {
    assert (steps + [d])[..|steps|] == steps;
  }

  lemma StepsSnoc(input: seq<MovementInstruction>, i: nat)
    requires i < |input|
    ensures Steps(input[..i + 1]) == Steps(input[..i]) + Repeat(input[i].direction, input[i].amount)
  {
    assert input[..i + 1][..i] == input[..i];
  }

  /** `calc_for`: moves a rope of `ropeSize` knots through every step and
      counts the distinct tail positions. */
  method CalcFor(input: seq<MovementInstruction>, ropeSize: nat) returns (count: nat)
    requires ropeSize >= 1
    ensures count == |TailTrail(Origin(ropeSize), Steps(input))|
  {
    var state := new State(ropeSize);
    assert state.nodes == Origin(ropeSize);
    var tailPositions: set<Pos> := {};
    for i := 0 to |input|
      invariant state.nodes == Run(Origin(ropeSize), Steps(input[..i]))
      invariant tailPositions == TailTrail(Origin(ropeSize), Steps(input[..i]))
    {
      tailPositions := MoveRepeatedly(state, input[i].direction, input[i].amount, tailPositions,
                                      Origin(ropeSize), Steps(input[..i]));
      StepsSnoc(input, i);
    }
    assert input[..|input|] == input;
    count := |tailPositions|;
  }

  /** The inner loop of `calc_for`: `amount` steps in one direction, each
      followed by recording the tail position. */
  method MoveRepeatedly(state: State, d: Direction, amount: nat, tails: set<Pos>,
                        ghost start: seq<Pos>, ghost before: seq<Direction>) returns (tailPositions: set<Pos>)
    requires |start| >= 1 && state.nodes == Run(start, before) && tails == TailTrail(start, before)
    modifies state
    ensures state.nodes == Run(start, before + Repeat(d, amount))
    ensures tailPositions == TailTrail(start, before + Repeat(d, amount))
  {
    tailPositions := tails;
    ghost var done := before;
    assert before + Repeat(d, 0) == before;
    for j := 0 to amount
      invariant done == before + Repeat(d, j)
      invariant state.nodes == Run(start, done)
      invariant tailPositions == TailTrail(start, done)
    {
      RunSnoc(start, done, d);
      state.MoveHead(d);
      assert before + Repeat(d, j + 1) == done + [d];
      done := done + [d];
      tailPositions := tailPositions + {state.Tail()};
    }
  }

  method Part1(input: seq<MovementInstruction>) returns (count: nat)
    ensures count == |TailTrail(Origin(2), Steps(input))|
  {
    count := CalcFor(input, 2);
  }

  method Part2(input: seq<MovementInstruction>) returns (count: nat)
    ensures count == |TailTrail(Origin(10), Steps(input))|
  {
    count := CalcFor(input, 10);
  }
}
