/** Day 19: not enough minerals.  A factory builds one robot at a time from
    ore, clay and obsidian; each robot collects one unit of its material per
    minute.  The search chooses which robot to build next, waits until it is
    affordable, and keeps the best number of geodes. */
module Day19 {
  import opened Common

  datatype Material = Ore | Clay | Obsidian | Geode

  /** `Material::from_str`: exactly the four names are accepted. */
  function ParseMaterial(s: string): (r: Option<Material>)
    ensures r.Some? ==> s == MaterialName(r.value)
  {
    if s == "ore" then Some(Ore)
    else if s == "clay" then Some(Clay)
    else if s == "obsidian" then Some(Obsidian)
    else if s == "geode" then Some(Geode)
    else None
  }

  function MaterialName(m: Material): string {
    match m
    case Ore => "ore"
    case Clay => "clay"
    case Obsidian => "obsidian"
    case Geode => "geode"
  }

  lemma ParseMaterialName(m: Material)
    ensures ParseMaterial(MaterialName(m)) == Some(m)
  {
  }

  /** `Material::all`, in the order the search tries them. */
  const AllMaterials: seq<Material> := [Ore, Clay, Obsidian, Geode]

  /** `Material::index`: the position of the material in `AllMaterials`. */
  function Index(m: Material): (i: nat)
    ensures i < 4 && AllMaterials[i] == m
  {
    match m
    case Ore => 0
    case Clay => 1
    case Obsidian => 2
    case Geode => 3
  }

  /** The index is a bijection onto 0..3. */
  lemma IndexOfAll(i: nat)
    requires i < 4
    ensures Index(AllMaterials[i]) == i
  {
  }

  /** Amounts of the four materials, or counts of the four kinds of robot. */
  type Amounts = s: seq<nat> | |s| == 4 witness [0, 0, 0, 0]

  /** What a robot costs in ore, clay and obsidian. */
  type Cost = s: seq<nat> | |s| == 3 witness [0, 0, 0]

  /** The costs of the four kinds of robot, by material index. */
  type Costs = s: seq<Cost> | |s| == 4 witness var c: Cost := [0, 0, 0]; [c, c, c, c]

  datatype Blueprint = Blueprint(id: nat, robotsCosts: Costs)

  datatype State = State(robots: Amounts, ores: Amounts)

  /** `State::default`: one ore robot and nothing collected. */
  const Start := State([1, 0, 0, 0], [0, 0, 0, 0])

  // ---------------------------------------------------------------------------
  // Waiting

  /** What `wait_minutes` makes of `s`: each robot collects for `minutes`. */
  function Waited(s: State, minutes: nat): (r: State)
    ensures r.robots == s.robots
  {
    State(s.robots, seq(4, i requires 0 <= i < 4 => s.ores[i] + s.robots[i] * minutes))
  }

  /** Waiting in two goes collects what waiting once for the whole time
      does. */
  lemma WaitedTwice(s: State, a: nat, b: nat)
    ensures Waited(Waited(s, a), b) == Waited(s, a + b)
  {
    forall i | 0 <= i < 4
      ensures Waited(Waited(s, a), b).ores[i] == Waited(s, a + b).ores[i]
    {
      MulAddLeft(s.robots[i], a, b);
    }
  }

  lemma MulAddLeft(r: nat, a: nat, b: nat)
    ensures r * (a + b) == r * a + r * b
  {
  }

  /** `wait_minutes`, the loop over the four materials. */
  method WaitMinutes(s: State, minutes: nat) returns (r: State)
    ensures r == Waited(s, minutes)
  {
    var ores := s.ores;
    for i := 0 to 4
      invariant |ores| == 4
      invariant forall j :: 0 <= j < i ==> ores[j] == s.ores[j] + s.robots[j] * minutes
      invariant forall j :: i <= j < 4 ==> ores[j] == s.ores[j]
    {
      ores := ores[i := ores[i] + s.robots[i] * minutes];
    }
    r := State(s.robots, ores);
  }

  // ---------------------------------------------------------------------------
  // Time to build

  /** The least `t` with `b · t >= a`: the quotient, plus one when there is
      a remainder. */
  function CeilDiv(a: nat, b: nat): nat
    requires b > 0
  {
    if 0 < a % b then a / b + 1 else a / b
  }

  lemma CeilDivMeaning(a: nat, b: nat)
    requires b > 0
    ensures b * CeilDiv(a, b) >= a
    ensures CeilDiv(a, b) > 0 ==> b * (CeilDiv(a, b) - 1) < a
  {
    var q, r := a / b, a % b;
    assert a == b * q + r;
    assert b * (q + 1) == b * q + b;
  }

  /** The stock covers `cost` in each of ore, clay and obsidian. */
  predicate Affords(ores: Amounts, cost: Cost) {
    forall j :: 0 <= j < 3 ==> cost[j] <= ores[j]
  }

  /** `time_to_build` after its loop has seen the first `j` materials: the
      longest wait any of them needs, or `None` once one of them is short
      and no robot collects it. */
  function TimeUpTo(s: State, cost: Cost, j: nat): Option<nat>
    requires j <= 3
  {
    if j == 0 then Some(0) else TimeStep(s, cost, j - 1, TimeUpTo(s, cost, j - 1))
  }

  /** One round of the loop: material `i` is short and has no robot, or
      needs a wait that may raise the longest one so far. */
  function TimeStep(s: State, cost: Cost, i: nat, sofar: Option<nat>): Option<nat>
    requires i < 3
  {
    match sofar
    case None => None
    case Some(m) =>
      if s.ores[i] < cost[i] then
        if s.robots[i] == 0 then None
        else
          var t := CeilDiv(cost[i] - s.ores[i], s.robots[i]);
          Some(if m < t then t else m)
      else Some(m)
  }

  /** `time_to_build` for a robot that costs `cost`. */
  function TimeNeeded(s: State, cost: Cost): Option<nat> {
    TimeUpTo(s, cost, 3)
  }

  /** The first `j` materials: `None` exactly when one of them is short
      with no robot for it. */
  lemma {:induction false} TimeUpToNone(s: State, cost: Cost, j: nat)
    requires j <= 3
    ensures TimeUpTo(s, cost, j).None? <==> exists i :: 0 <= i < j && s.ores[i] < cost[i] && s.robots[i] == 0
  {
    if j > 0 {
      TimeUpToNone(s, cost, j - 1);
    }
  }

  /** Collecting for longer never leaves less. */
  lemma CollectMonotone(ore: nat, r: nat, m: nat, t: nat)
    requires m <= t
    ensures ore + r * m <= ore + r * t
  {
    assert r * t == r * m + r * (t - m);
  }

  /** Otherwise the wait covers each of the first `j` materials. */
  lemma {:induction false} TimeUpToCovers(s: State, cost: Cost, j: nat, k: nat)
    requires k < j <= 3 && TimeUpTo(s, cost, j).Some?
    ensures cost[k] <= s.ores[k] + s.robots[k] * TimeUpTo(s, cost, j).value
  {
    var i := j - 1;
    var m, t := TimeUpTo(s, cost, j - 1).value, TimeUpTo(s, cost, j).value;
    assert m <= t;
    if k < i {
      TimeUpToCovers(s, cost, j - 1, k);
      CollectMonotone(s.ores[k], s.robots[k], m, t);
    } else if s.ores[i] < cost[i] {
      var c := CeilDiv(cost[i] - s.ores[i], s.robots[i]);
      CeilDivMeaning(cost[i] - s.ores[i], s.robots[i]);
      assert c <= t;
      CollectMonotone(s.ores[i], s.robots[i], c, t);
    }
  }

  /** And one minute less would leave one of them short. */
  lemma {:induction false} TimeUpToTight(s: State, cost: Cost, j: nat)
    requires j <= 3 && TimeUpTo(s, cost, j).Some? && TimeUpTo(s, cost, j).value > 0
    ensures exists i :: 0 <= i < j && s.ores[i] + s.robots[i] * (TimeUpTo(s, cost, j).value - 1) < cost[i]
  {
    var i := j - 1;
    var m, t := TimeUpTo(s, cost, j - 1).value, TimeUpTo(s, cost, j).value;
    if s.ores[i] < cost[i] && m < CeilDiv(cost[i] - s.ores[i], s.robots[i]) {
      CeilDivMeaning(cost[i] - s.ores[i], s.robots[i]);
      assert s.ores[i] + s.robots[i] * (t - 1) < cost[i];
    } else {
      assert t == m;
      TimeUpToTight(s, cost, j - 1);
    }
  }

  /** The wait `time_to_build` reports is the least after which the robot
      is affordable; `None` means no wait ever makes it so. */
  lemma TimeNeededMeaning(s: State, cost: Cost, t: nat)
    ensures TimeNeeded(s, cost) == Some(t) ==>
      Affords(Waited(s, t).ores, cost) && forall u: nat :: u < t ==> !Affords(Waited(s, u).ores, cost)
    ensures TimeNeeded(s, cost).None? ==> !Affords(Waited(s, t).ores, cost)
  {
    TimeUpToNone(s, cost, 3);
    if TimeNeeded(s, cost) == Some(t) {
      forall k | 0 <= k < 3 ensures cost[k] <= Waited(s, t).ores[k] {
        TimeUpToCovers(s, cost, 3, k);
      }
      if t > 0 {
        TimeUpToTight(s, cost, 3);
      }
      forall u: nat | u < t ensures !Affords(Waited(s, u).ores, cost) {
        var i :| 0 <= i < 3 && s.ores[i] + s.robots[i] * (t - 1) < cost[i];
        CollectMonotone(s.ores[i], s.robots[i], u, t - 1);
        assert Waited(s, u).ores[i] < cost[i];
      }
    }
    if TimeNeeded(s, cost).None? {
      var i :| 0 <= i < 3 && s.ores[i] < cost[i] && s.robots[i] == 0;
      assert Waited(s, t).ores[i] < cost[i];
    }
  }

  /** Once the loop has met a short material with no robot, it stays
      `None`. */
  lemma {:induction false} TimeUpToStaysNone(s: State, cost: Cost, j: nat, k: nat)
    requires j <= k <= 3 && TimeUpTo(s, cost, j).None?
    ensures TimeUpTo(s, cost, k).None?
  {
    if j < k {
      TimeUpToStaysNone(s, cost, j, k - 1);
    }
  }

  /** `time_to_build`, the loop over ore, clay and obsidian with its early
      return. */
  method TimeToBuild(s: State, cost: Cost) returns (r: Option<nat>)
    ensures r == TimeNeeded(s, cost)
  {
    var maxRequired := 0;
    for j := 0 to 3
      invariant TimeUpTo(s, cost, j) == Some(maxRequired)
    {
      var ore, numRobots := s.ores[j], s.robots[j];
      if ore < cost[j] {
        if numRobots == 0 {
          TimeUpToStaysNone(s, cost, j + 1, 3);
          return None;
        }
        var extraOreRequired := cost[j] - ore;
        var timeRequired := extraOreRequired / numRobots;
        if 0 < extraOreRequired % numRobots {
          timeRequired := timeRequired + 1;
        }
        assert timeRequired == CeilDiv(extraOreRequired, numRobots);
        maxRequired := if maxRequired < timeRequired then timeRequired else maxRequired;
      }
      assert TimeUpTo(s, cost, j + 1) == TimeStep(s, cost, j, TimeUpTo(s, cost, j));
    }
    r := Some(maxRequired);
  }

  // ---------------------------------------------------------------------------
  // Building

  /** What `build_robot` makes of `s`: the cost is paid from ore, clay and
      obsidian, and there is one more robot of material `k`. */
  function Built(s: State, cost: Cost, k: nat): (r: State)
    requires k < 4 && Affords(s.ores, cost)
    ensures forall j :: 0 <= j < 3 ==> r.ores[j] + cost[j] == s.ores[j]
    ensures r.ores[3] == s.ores[3]
    ensures r.robots[k] == s.robots[k] + 1 && forall j :: 0 <= j < 4 && j != k ==> r.robots[j] == s.robots[j]
  {
    State(s.robots[k := s.robots[k] + 1],
          seq(4, i requires 0 <= i < 4 => if i < 3 then s.ores[i] - cost[i] else s.ores[i]))
  }

  /** `build_robot`, the loop that pays the cost; an amount that would go
      below zero makes the subtraction overflow, so the cost must be
      affordable. */
  method BuildRobot(s: State, bp: Blueprint, material: Material) returns (r: State)
    requires Affords(s.ores, bp.robotsCosts[Index(material)])
    ensures r == Built(s, bp.robotsCosts[Index(material)], Index(material))
  {
    var costs := bp.robotsCosts[Index(material)];
    var ores := s.ores;
    for i := 0 to 3
      invariant |ores| == 4
      invariant forall j :: 0 <= j < i ==> ores[j] + costs[j] == s.ores[j]
      invariant forall j :: i <= j < 4 ==> ores[j] == s.ores[j]
    {
      ores := ores[i := ores[i] - costs[i]];
    }
    var k := Index(material);
    r := State(s.robots[k := s.robots[k] + 1], ores);
  }

  // ---------------------------------------------------------------------------
  // The search

  /** Waiting the time a robot needs plus the minute it takes to build it,
      then building it. */
  function AfterBuilding(s: State, bp: Blueprint, k: nat, t: nat): State
    requires k < 4 && TimeNeeded(s, bp.robotsCosts[k]) == Some(t)
  {
    TimeNeededMeaning(s, bp.robotsCosts[k], t);
    WaitedTwice(s, t, 1);
    Built(Waited(s, t + 1), bp.robotsCosts[k], k)
  }

  /** `most_geode`: the geodes collected by doing nothing, or by building
      first one of the robots tried; each branch has strictly less time
      left. */
  function BestGeodes(s: State, bp: Blueprint, remaining: nat): (r: nat)
    decreases remaining, 5
  {
    Scan(s, bp, remaining, 0, Waited(s, remaining).ores[3])
  }

  /** The loop of `most_geode` from material `k` on, with the best found so
      far; a material that can never be afforded stops the scan. */
  function Scan(s: State, bp: Blueprint, remaining: nat, k: nat, best: nat): (r: nat)
    requires k <= 4
    ensures r >= best
    decreases remaining, 4 - k
  {
    if k == 4 then best
    else
      match TimeNeeded(s, bp.robotsCosts[k])
      case None => best
      case Some(t) =>
        if t + 1 < remaining then
          var branch := BestGeodes(AfterBuilding(s, bp, k, t), bp, remaining - (t + 1));
          Scan(s, bp, remaining, k + 1, if best < branch then branch else best)
        else Scan(s, bp, remaining, k + 1, best)
  }

  /** Doing nothing is always one of the options. */
  lemma BestAtLeastIdle(s: State, bp: Blueprint, remaining: nat)
    ensures BestGeodes(s, bp, remaining) >= Waited(s, remaining).ores[3]
  {
  }

  /** `most_geode`, with its loop over the materials. */
  method MostGeode(s: State, bp: Blueprint, remaining: nat) returns (best: nat)
    ensures best == BestGeodes(s, bp, remaining)
    decreases remaining
  {
    var idle := WaitMinutes(s, remaining);
    best := idle.ores[3];
    var k := 0;
    while k < 4
      invariant k <= 4
      invariant Scan(s, bp, remaining, k, best) == BestGeodes(s, bp, remaining)
    {
      var timeRequired := TimeToBuild(s, bp.robotsCosts[k]);
      if timeRequired.None? {
        break;
      }
      var t := timeRequired.value;
      var timeAfterBuilt := t + 1;
      if timeAfterBuilt < remaining {
        TimeNeededMeaning(s, bp.robotsCosts[k], t);
        WaitedTwice(s, t, 1);
        var waited := WaitMinutes(s, timeAfterBuilt);
        var built := BuildRobot(waited, bp, AllMaterials[k]);
        var branch := MostGeode(built, bp, remaining - timeAfterBuilt);
        best := if best < branch then branch else best;
      }
      k := k + 1;
    }
  }

  // ---------------------------------------------------------------------------
  // Plans: the search is exhaustive over its own choices

  /** Every material up to `k` can some time be afforded: the scan reaches
      material `k`. */
  predicate Reachable(s: State, bp: Blueprint, k: nat)
    requires k < 4
  {
    forall j :: 0 <= j <= k ==> TimeNeeded(s, bp.robotsCosts[j]).Some?
  }

  /** The geodes collected by building the robots of `plan` in turn, each
      as soon as it is affordable, then waiting out the time; `None` when a
      step is one the search would not take. */
  function PlanGeodes(s: State, bp: Blueprint, remaining: nat, plan: seq<nat>): Option<nat>
    decreases |plan|
  {
    if plan == [] then Some(Waited(s, remaining).ores[3])
    else
      var k := plan[0];
      if k < 4 && Reachable(s, bp, k) then
        var t := TimeNeeded(s, bp.robotsCosts[k]).value;
        if t + 1 < remaining then PlanGeodes(AfterBuilding(s, bp, k, t), bp, remaining - (t + 1), plan[1..])
        else None
      else None
  }

  /** The scan from `j` covers every reachable material `k >= j` it can
      still build in time. */
  lemma {:induction false} ScanCovers(s: State, bp: Blueprint, remaining: nat, j: nat, best: nat, k: nat, t: nat)
    requires j <= k < 4 && Reachable(s, bp, k) && TimeNeeded(s, bp.robotsCosts[k]) == Some(t) && t + 1 < remaining
    ensures Scan(s, bp, remaining, j, best) >= BestGeodes(AfterBuilding(s, bp, k, t), bp, remaining - (t + 1))
    decreases k - j
  {
    var tj := TimeNeeded(s, bp.robotsCosts[j]).value;
    if j < k {
      if tj + 1 < remaining {
        var branch := BestGeodes(AfterBuilding(s, bp, j, tj), bp, remaining - (tj + 1));
        ScanCovers(s, bp, remaining, j + 1, if best < branch then branch else best, k, t);
      } else {
        ScanCovers(s, bp, remaining, j + 1, best, k, t);
      }
    }
  }

  /** No plan collects more geodes than the search reports. */
  lemma {:induction false} PlanAtMostBest(s: State, bp: Blueprint, remaining: nat, plan: seq<nat>)
    requires PlanGeodes(s, bp, remaining, plan).Some?
    ensures PlanGeodes(s, bp, remaining, plan).value <= BestGeodes(s, bp, remaining)
    decreases |plan|
  {
    if plan != [] {
      var k := plan[0];
      var t := TimeNeeded(s, bp.robotsCosts[k]).value;
      var next := AfterBuilding(s, bp, k, t);
      PlanAtMostBest(next, bp, remaining - (t + 1), plan[1..]);
      ScanCovers(s, bp, remaining, 0, Waited(s, remaining).ores[3], k, t);
    }
  }

  /** The scan from `j` ends on its starting best or on the value of one of
      the branches it tried. */
  lemma {:induction false} ScanAttained(s: State, bp: Blueprint, remaining: nat, j: nat, best: nat)
    requires j <= 4 && forall i :: 0 <= i < j ==> TimeNeeded(s, bp.robotsCosts[i]).Some?
    ensures var r := Scan(s, bp, remaining, j, best);
      r == best || exists k :: j <= k < 4 && Reachable(s, bp, k) && Attains(s, bp, remaining, k, r)
    decreases 4 - j
  {
    if j < 4 && TimeNeeded(s, bp.robotsCosts[j]).Some? {
      var t := TimeNeeded(s, bp.robotsCosts[j]).value;
      if t + 1 < remaining {
        var branch := BestGeodes(AfterBuilding(s, bp, j, t), bp, remaining - (t + 1));
        ScanAttained(s, bp, remaining, j + 1, if best < branch then branch else best);
        assert Reachable(s, bp, j);
        if best < branch {
          assert Attains(s, bp, remaining, j, branch);
        }
      } else {
        ScanAttained(s, bp, remaining, j + 1, best);
      }
    }
  }

  /** Building robot `k` first, and then searching, gives `r` geodes. */
  predicate Attains(s: State, bp: Blueprint, remaining: nat, k: nat, r: nat)
    requires k < 4
  {
    && TimeNeeded(s, bp.robotsCosts[k]).Some?
    && var t := TimeNeeded(s, bp.robotsCosts[k]).value;
       t + 1 < remaining && r == BestGeodes(AfterBuilding(s, bp, k, t), bp, remaining - (t + 1))
  }

  /** A plan that starts with a robot the search can build is that step
      followed by the rest of the plan. */
  lemma PlanCons(s: State, bp: Blueprint, remaining: nat, k: nat, t: nat, plan: seq<nat>)
    requires k < 4 && Reachable(s, bp, k) && TimeNeeded(s, bp.robotsCosts[k]) == Some(t) && t + 1 < remaining
    ensures PlanGeodes(s, bp, remaining, [k] + plan) == PlanGeodes(AfterBuilding(s, bp, k, t), bp, remaining - (t + 1), plan)
  {
    assert ([k] + plan)[1..] == plan;
  }

  /** Some plan collects exactly what the search reports. */
  lemma {:induction false} BestIsAttained(s: State, bp: Blueprint, remaining: nat)
    ensures exists plan :: PlanGeodes(s, bp, remaining, plan) == Some(BestGeodes(s, bp, remaining))
    decreases remaining
  {
    var idle := Waited(s, remaining).ores[3];
    ScanAttained(s, bp, remaining, 0, idle);
    var r := BestGeodes(s, bp, remaining);
    if r == idle {
      assert PlanGeodes(s, bp, remaining, []) == Some(r);
    } else {
      var k :| 0 <= k < 4 && Reachable(s, bp, k) && Attains(s, bp, remaining, k, r);
      var t := TimeNeeded(s, bp.robotsCosts[k]).value;
      var next := AfterBuilding(s, bp, k, t);
      BestIsAttained(next, bp, remaining - (t + 1));
      var plan :| PlanGeodes(next, bp, remaining - (t + 1), plan) == Some(r);
      PlanCons(s, bp, remaining, k, t, plan);
    }
  }

  /** `g` is the most geodes any plan collects. */
  ghost predicate IsMostGeodes(s: State, bp: Blueprint, remaining: nat, g: nat) {
    && (exists plan :: PlanGeodes(s, bp, remaining, plan) == Some(g))
    && (forall plan :: PlanGeodes(s, bp, remaining, plan).Some? ==> PlanGeodes(s, bp, remaining, plan).value <= g)
  }

  /** The search reports the best plan's geodes. */
  lemma BestIsMost(s: State, bp: Blueprint, remaining: nat)
    ensures IsMostGeodes(s, bp, remaining, BestGeodes(s, bp, remaining))
  {
    BestIsAttained(s, bp, remaining);
    forall plan | PlanGeodes(s, bp, remaining, plan).Some?
      ensures PlanGeodes(s, bp, remaining, plan).value <= BestGeodes(s, bp, remaining)
    {
      PlanAtMostBest(s, bp, remaining, plan);
    }
  }

  // ---------------------------------------------------------------------------
  // The two parts

  /** The quality levels of the blueprints: id times the geodes in 24
      minutes. */
  ghost function QualitySum(input: seq<Blueprint>): int {
    if input == [] then 0
    else QualitySum(input[..|input| - 1]) + input[|input| - 1].id * BestGeodes(Start, input[|input| - 1], 24)
  }

  method Part1(input: seq<Blueprint>) returns (total: int)
    ensures total == QualitySum(input)
  {
    total := 0;
    for i := 0 to |input|
      invariant total == QualitySum(input[..i])
    {
      var geodes := MostGeode(Start, input[i], 24);
      assert input[..i + 1][..i] == input[..i];
      total := total + input[i].id * geodes;
    }
    assert input[..|input|] == input;
  }

  /** The product of the geodes of the blueprints in 32 minutes. */
  ghost function GeodeProduct(input: seq<Blueprint>): int {
    if input == [] then 1
    else GeodeProduct(input[..|input| - 1]) * BestGeodes(Start, input[|input| - 1], 32)
  }

  /** Part 2: only the first three blueprints. */
  method Part2(input: seq<Blueprint>) returns (product: int)
    ensures product == GeodeProduct(if |input| < 3 then input else input[..3])
  {
    var first := if |input| < 3 then input else input[..3];
    product := 1;
    for i := 0 to |first|
      invariant product == GeodeProduct(first[..i])
    {
      var geodes := MostGeode(Start, first[i], 32);
      assert first[..i + 1][..i] == first[..i];
      product := product * geodes;
    }
    assert first[..|first|] == first;
  }
}
