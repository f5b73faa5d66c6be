/** Day 11: monkey in the middle.  Monkeys inspect the items they hold,
    change their worry levels and throw them to other monkeys.  Worry
    levels are kept small by reducing them modulo the least common multiple
    of all the monkeys' divisibility tests. */
module Day11 {
  import opened Common

  datatype Operation = Add(n: nat) | Multiply(n: nat) | Squared

  /** `Operation::apply`. */
  function Apply(op: Operation, worry: nat): nat {
    match op
    case Add(n) => worry + n
    case Multiply(n) => worry * n
    case Squared => worry * worry
  }

  /** A monkey as the input describes it.  `throwTo.1` is the monkey that
      receives items passing the test, `throwTo.0` the one receiving the
      others. */
  datatype MonkeyDescription = MonkeyDescription(
    monkeyIdx: nat,
    startingItems: seq<nat>,
    operation: Operation,
    testDivision: nat,
    throwTo: (nat, nat))

  /** `MonkeyDescription::throw_to`. */
  function ThrowTo(desc: MonkeyDescription, worry: nat): nat
    requires desc.testDivision > 0
  {
    if worry % desc.testDivision == 0 then desc.throwTo.1 else desc.throwTo.0
  }

  /** The `lcm` the state starts with: folded from 1 over every test
      divisor in order. */
  function LcmOfTests(descs: seq<MonkeyDescription>): nat {
    if descs == [] then 1
    else Lcm(LcmOfTests(descs[..|descs| - 1]), descs[|descs| - 1].testDivision)
  }

  predicate TestsPositive(descs: seq<MonkeyDescription>) {
    forall i :: 0 <= i < |descs| ==> descs[i].testDivision > 0
  }

  /** Every test divisor divides the state's `lcm`. */
  lemma {:induction false} LcmOfTestsDividesAll(descs: seq<MonkeyDescription>)
    requires TestsPositive(descs)
    ensures LcmOfTests(descs) > 0
    ensures forall i :: 0 <= i < |descs| ==> LcmOfTests(descs) % descs[i].testDivision == 0
  {
    if descs != [] {
      var init := descs[..|descs| - 1];
      var d := descs[|descs| - 1].testDivision;
      assert forall i :: 0 <= i < |init| ==> init[i] == descs[i];
      LcmOfTestsDividesAll(init);
      var l := LcmOfTests(init);
      LcmIsCommonMultiple(l, d);
      forall i | 0 <= i < |descs|
        ensures LcmOfTests(descs) % descs[i].testDivision == 0
      {
        if i < |init| {
          DividesTransitive(LcmOfTests(descs), l, descs[i].testDivision);
        }
      }
    }
  }

  /** Reducing a worry level modulo the state's `lcm` keeps its remainder
      modulo every test divisor, hence the monkey it is thrown to. */
  lemma ReductionKeepsTests(descs: seq<MonkeyDescription>, i: nat, worry: nat)
    requires TestsPositive(descs) && i < |descs|
    ensures LcmOfTests(descs) > 0
    ensures (worry % LcmOfTests(descs)) % descs[i].testDivision == worry % descs[i].testDivision
    ensures ThrowTo(descs[i], worry % LcmOfTests(descs)) == ThrowTo(descs[i], worry)
  {
    LcmOfTestsDividesAll(descs);
    ModMod(worry, LcmOfTests(descs), descs[i].testDivision);
  }

  /** Multiplying keeps remainders modulo `l`. */
  lemma MulRespectsMod(worry: nat, n: nat, l: nat)
    requires l > 0
    ensures (worry * n) % l == ((worry % l) * n) % l
  {
    var q, r := worry / l, worry % l;
    assert worry == l * q + r;
    assert worry * n == (l * q) * n + r * n;
    MulRegroup(l, q, n);
    ModAddMultiple(l, q * n, r * n);
  }

  /** Every operation is compatible with remainders modulo `l`. */
  lemma ApplyRespectsMod(op: Operation, worry: nat, l: nat)
    requires l > 0
    ensures Apply(op, worry % l) % l == Apply(op, worry) % l
  {
    var r := worry % l;
    match op
    case Add(n) =>
      assert worry + n == l * (worry / l) + (r + n);
      ModAddMultiple(l, worry / l, r + n);
    case Multiply(n) =>
      MulRespectsMod(worry, n, l);
    case Squared =>
      MulRespectsMod(worry, worry, l);
      MulRespectsMod(worry, r, l);
      assert worry * r == r * worry;
  }

  /** The worry level an item leaves its monkey with: the operation, the
      division (by 3 in part 1, by 1 in part 2), and the reduction. */
  function NewWorry(op: Operation, divideBy: nat, lcm: nat, worry: nat): (r: nat)
    requires divideBy > 0 && lcm > 0
    ensures r < lcm
  {
    (Apply(op, worry) / divideBy) % lcm
  }

  /** Without division, an item whose worry level was reduced is thrown to
      the same monkey as it would be with the unreduced level, and keeps its
      remainder modulo `lcm`: the reduction does not change part 2. */
  lemma ReducedWorryIsFaithful(desc: MonkeyDescription, lcm: nat, reduced: nat, worry: nat)
    requires desc.testDivision > 0 && lcm > 0 && lcm % desc.testDivision == 0
    requires reduced % lcm == worry % lcm
    ensures NewWorry(desc.operation, 1, lcm, reduced) == Apply(desc.operation, worry) % lcm
    ensures ThrowTo(desc, NewWorry(desc.operation, 1, lcm, reduced)) == ThrowTo(desc, Apply(desc.operation, worry))
  {
    ApplyRespectsMod(desc.operation, reduced, lcm);
    ApplyRespectsMod(desc.operation, worry, lcm);
    ModMod(Apply(desc.operation, worry), lcm, desc.testDivision);
  }

  // ---------------------------------------------------------------------------
  // The monkeys' state

  datatype MonkeyState = MonkeyState(items: seq<nat>, timesInspected: nat)

  /** `desc` names monkeys among `n`, never throws to itself and has a
      non-zero test. */
  predicate Fits(desc: MonkeyDescription, n: nat) {
    && desc.monkeyIdx < n
    && desc.throwTo.0 < n && desc.throwTo.1 < n
    && desc.throwTo.0 != desc.monkeyIdx && desc.throwTo.1 != desc.monkeyIdx
    && desc.testDivision > 0
  }

  predicate AllFit(descs: seq<MonkeyDescription>, n: nat) {
    forall i :: 0 <= i < |descs| ==> Fits(descs[i], n)
  }

  /** The monkeys after `desc`'s monkey has thrown `items` in order, each
      appended to the back of its target's queue. */
  function Throw(ms: seq<MonkeyState>, desc: MonkeyDescription, divideBy: nat, lcm: nat, items: seq<nat>): (r: seq<MonkeyState>)
    requires Fits(desc, |ms|) && divideBy > 0 && lcm > 0
    ensures |r| == |ms|
    decreases |items|
  {
    if items == [] then ms
    else
      var prev := Throw(ms, desc, divideBy, lcm, items[..|items| - 1]);
      var w := NewWorry(desc.operation, divideBy, lcm, items[|items| - 1]);
      var t := ThrowTo(desc, w);
      prev[t := prev[t].(items := prev[t].items + [w])]
  }

  /** The worry levels, in order, that throwing `items` sends to monkey `j`. */
  function Sent(desc: MonkeyDescription, divideBy: nat, lcm: nat, items: seq<nat>, j: nat): seq<nat>
    requires desc.testDivision > 0 && divideBy > 0 && lcm > 0
    decreases |items|
  {
    if items == [] then []
    else
      var w := NewWorry(desc.operation, divideBy, lcm, items[|items| - 1]);
      Sent(desc, divideBy, lcm, items[..|items| - 1], j) + (if ThrowTo(desc, w) == j then [w] else [])
  }

  /** Throwing appends to each monkey's queue exactly what is sent to it and
      leaves every inspection count alone. */
  lemma {:induction false} ThrowShape(ms: seq<MonkeyState>, desc: MonkeyDescription, divideBy: nat, lcm: nat, items: seq<nat>)
    requires Fits(desc, |ms|) && divideBy > 0 && lcm > 0
    ensures forall j :: 0 <= j < |ms| ==>
      Throw(ms, desc, divideBy, lcm, items)[j] == MonkeyState(ms[j].items + Sent(desc, divideBy, lcm, items, j), ms[j].timesInspected)
    decreases |items|
  {
    if items == [] {
      forall j | 0 <= j < |ms|
        ensures ms[j].items + Sent(desc, divideBy, lcm, items, j) == ms[j].items
      {
      }
    } else {
      var init := items[..|items| - 1];
      ThrowShape(ms, desc, divideBy, lcm, init);
      forall j | 0 <= j < |ms|
        ensures Throw(ms, desc, divideBy, lcm, items)[j] == MonkeyState(ms[j].items + Sent(desc, divideBy, lcm, items, j), ms[j].timesInspected)
      {
        assert ms[j].items + Sent(desc, divideBy, lcm, init, j) + (if ThrowTo(desc, NewWorry(desc.operation, divideBy, lcm, items[|items| - 1])) == j then [NewWorry(desc.operation, divideBy, lcm, items[|items| - 1])] else [])
          == ms[j].items + Sent(desc, divideBy, lcm, items, j);
      }
    }
  }

  /** A monkey that fits never sends anything to itself, and everything it
      sends is below `lcm`. */
  lemma {:induction false} SentFacts(desc: MonkeyDescription, divideBy: nat, lcm: nat, items: seq<nat>, j: nat)
    requires desc.testDivision > 0 && divideBy > 0 && lcm > 0
    ensures j != desc.throwTo.0 && j != desc.throwTo.1 ==> Sent(desc, divideBy, lcm, items, j) == []
    ensures forall k :: 0 <= k < |Sent(desc, divideBy, lcm, items, j)| ==> Sent(desc, divideBy, lcm, items, j)[k] < lcm
    decreases |items|
  {
    if items != [] {
      SentFacts(desc, divideBy, lcm, items[..|items| - 1], j);
    }
  }

  /** Sum of the queue lengths. */
  function TotalItems(ms: seq<MonkeyState>): nat {
    if ms == [] then 0 else TotalItems(ms[..|ms| - 1]) + |ms[|ms| - 1].items|
  }

  lemma {:induction false} TotalItemsUpdate(ms: seq<MonkeyState>, i: nat, m: MonkeyState)
    requires i < |ms|
    ensures TotalItems(ms[i := m]) + |ms[i].items| == TotalItems(ms) + |m.items|
    decreases |ms|
  {
    var n := |ms| - 1;
    if i == n {
      assert ms[i := m][..n] == ms[..n];
    } else {
      assert ms[i := m][..n] == ms[..n][i := m];
      TotalItemsUpdate(ms[..n], i, m);
    }
  }

  lemma {:induction false} ThrowAddsItems(ms: seq<MonkeyState>, desc: MonkeyDescription, divideBy: nat, lcm: nat, items: seq<nat>)
    requires Fits(desc, |ms|) && divideBy > 0 && lcm > 0
    ensures TotalItems(Throw(ms, desc, divideBy, lcm, items)) == TotalItems(ms) + |items|
    decreases |items|
  {
    if items != [] {
      var init := items[..|items| - 1];
      ThrowAddsItems(ms, desc, divideBy, lcm, init);
      var prev := Throw(ms, desc, divideBy, lcm, init);
      var w := NewWorry(desc.operation, divideBy, lcm, items[|items| - 1]);
      var t := ThrowTo(desc, w);
      TotalItemsUpdate(prev, t, prev[t].(items := prev[t].items + [w]));
    }
  }

  /** The monkeys after `run_monkey` for `desc`: its queue thrown in order,
      then emptied, and its count raised by the queue's length. */
  function AfterMonkey(ms: seq<MonkeyState>, desc: MonkeyDescription, divideBy: nat, lcm: nat): (r: seq<MonkeyState>)
    requires Fits(desc, |ms|) && divideBy > 0 && lcm > 0
    ensures |r| == |ms|
  {
    var idx := desc.monkeyIdx;
    var queue := ms[idx].items;
    Throw(ms, desc, divideBy, lcm, queue)[idx := MonkeyState([], ms[idx].timesInspected + |queue|)]
  }

  /** `run_monkey` empties the monkey's queue and counts each item; every
      other monkey gets, at the back of its queue, the items sent to it,
      all below `lcm`; the number of items in play does not change. */
  lemma AfterMonkeyMeaning(ms: seq<MonkeyState>, desc: MonkeyDescription, divideBy: nat, lcm: nat)
    requires Fits(desc, |ms|) && divideBy > 0 && lcm > 0
    ensures var r := AfterMonkey(ms, desc, divideBy, lcm);
      && r[desc.monkeyIdx] == MonkeyState([], ms[desc.monkeyIdx].timesInspected + |ms[desc.monkeyIdx].items|)
      && (forall j :: 0 <= j < |ms| && j != desc.monkeyIdx ==>
            r[j] == MonkeyState(ms[j].items + Sent(desc, divideBy, lcm, ms[desc.monkeyIdx].items, j), ms[j].timesInspected))
      && (forall j, k :: 0 <= j < |ms| && 0 <= k < |Sent(desc, divideBy, lcm, ms[desc.monkeyIdx].items, j)| ==>
            Sent(desc, divideBy, lcm, ms[desc.monkeyIdx].items, j)[k] < lcm)
      && TotalItems(r) == TotalItems(ms)
  {
    var idx := desc.monkeyIdx;
    var queue := ms[idx].items;
    ThrowShape(ms, desc, divideBy, lcm, queue);
    ThrowAddsItems(ms, desc, divideBy, lcm, queue);
    SentFacts(desc, divideBy, lcm, queue, idx);
    forall j | 0 <= j < |ms|
      ensures forall k :: 0 <= k < |Sent(desc, divideBy, lcm, queue, j)| ==> Sent(desc, divideBy, lcm, queue, j)[k] < lcm
    {
      SentFacts(desc, divideBy, lcm, queue, j);
    }
    var thrown := Throw(ms, desc, divideBy, lcm, queue);
    assert thrown[idx].items == queue;
    TotalItemsUpdate(thrown, idx, MonkeyState([], ms[idx].timesInspected + |queue|));
  }

  /** The monkeys after `run_round`: every description's monkey in turn. */
  function AfterRound(ms: seq<MonkeyState>, descs: seq<MonkeyDescription>, divideBy: nat, lcm: nat): (r: seq<MonkeyState>)
    requires AllFit(descs, |ms|) && divideBy > 0 && lcm > 0
    ensures |r| == |ms|
  {
    if descs == [] then ms
    else AfterMonkey(AfterRound(ms, descs[..|descs| - 1], divideBy, lcm), descs[|descs| - 1], divideBy, lcm)
  }

  /** The monkeys after `n` rounds. */
  function Rounds(ms: seq<MonkeyState>, descs: seq<MonkeyDescription>, divideBy: nat, lcm: nat, n: nat): (r: seq<MonkeyState>)
    requires AllFit(descs, |ms|) && divideBy > 0 && lcm > 0
    ensures |r| == |ms|
  {
    if n == 0 then ms else AfterRound(Rounds(ms, descs, divideBy, lcm, n - 1), descs, divideBy, lcm)
  }

  lemma {:induction false} AfterRoundKeepsItems(ms: seq<MonkeyState>, descs: seq<MonkeyDescription>, divideBy: nat, lcm: nat)
    requires AllFit(descs, |ms|) && divideBy > 0 && lcm > 0
    ensures TotalItems(AfterRound(ms, descs, divideBy, lcm)) == TotalItems(ms)
  {
    if descs != [] {
      var init := descs[..|descs| - 1];
      assert AllFit(init, |ms|) by {
        assert forall i :: 0 <= i < |init| ==> init[i] == descs[i];
      }
      AfterRoundKeepsItems(ms, init, divideBy, lcm);
      AfterMonkeyMeaning(AfterRound(ms, init, divideBy, lcm), descs[|descs| - 1], divideBy, lcm);
    }
  }

  /** No round creates or destroys an item. */
  lemma {:induction false} RoundsKeepItems(ms: seq<MonkeyState>, descs: seq<MonkeyDescription>, divideBy: nat, lcm: nat, n: nat)
    requires AllFit(descs, |ms|) && divideBy > 0 && lcm > 0
    ensures TotalItems(Rounds(ms, descs, divideBy, lcm, n)) == TotalItems(ms)
  {
    if n > 0 {
      RoundsKeepItems(ms, descs, divideBy, lcm, n - 1);
      AfterRoundKeepsItems(Rounds(ms, descs, divideBy, lcm, n - 1), descs, divideBy, lcm);
    }
  }

  /** The monkeys as `State::from` builds them from the descriptions. */
  function Initial(descs: seq<MonkeyDescription>): (r: seq<MonkeyState>)
    ensures |r| == |descs|
  {
    seq(|descs|, i requires 0 <= i < |descs| => MonkeyState(descs[i].startingItems, 0))
  }

  // ---------------------------------------------------------------------------
  // Monkey business

  function Times(ms: seq<MonkeyState>): seq<nat> {
    seq(|ms|, i requires 0 <= i < |ms| => ms[i].timesInspected)
  }

  /** Index of a largest element. */
  function ArgMax(s: seq<nat>): (i: nat)
    requires |s| > 0
    ensures i < |s| && forall j :: 0 <= j < |s| ==> s[j] <= s[i]
  {
    if |s| == 1 then 0
    else
      var i := ArgMax(s[..|s| - 1]);
      assert forall j :: 0 <= j < |s| - 1 ==> s[j] == s[..|s| - 1][j];
      if s[i] < s[|s| - 1] then |s| - 1 else i
  }

  /** `t` without its element at `m`. */
  function RemoveAt(t: seq<nat>, m: nat): (r: seq<nat>)
    requires m < |t|
    ensures |r| == |t| - 1
    ensures forall j :: 0 <= j < m ==> r[j] == t[j]
    ensures forall j :: m < j < |t| ==> r[j - 1] == t[j]
  {
    t[..m] + t[m + 1..]
  }

  /** Where the two counts `select_nth_unstable_by_key(1, Reverse)` moves
      to positions 0 and 1 come from: a largest count, and a largest one
      among the other monkeys'. */
  function TopTwoIndices(t: seq<nat>): (p: (nat, nat))
    requires |t| >= 2
    ensures p.0 < |t| && p.1 < |t| && p.0 != p.1
    ensures forall i :: 0 <= i < |t| ==> t[i] <= t[p.0]
    ensures forall j :: 0 <= j < |t| && j != p.0 ==> t[j] <= t[p.1]
  {
    var m := ArgMax(t);
    var rest := RemoveAt(t, m);
    var k := ArgMax(rest);
    var other := if k < m then k else k + 1;
    assert forall j :: 0 <= j < |t| && j != m ==> t[j] <= rest[k] by {
      forall j | 0 <= j < |t| && j != m
        ensures t[j] <= rest[k]
      {
        if j > m {
          assert rest[j - 1] == t[j];
        }
      }
    }
    (m, other)
  }

  /** `monkey_business`: the product of the two counts. */
  function TopTwoProduct(t: seq<nat>): nat
    requires |t| >= 2
  {
    var p := TopTwoIndices(t);
    MulNonNegative(t[p.0], t[p.1]);
    t[p.0] * t[p.1]
  }

  lemma MulMono(x: nat, y: nat, a: nat, b: nat)
    requires x <= a && y <= b
    ensures x * y <= a * b && y * x <= a * b
  {
    assert x * y <= a * y;
  }

  /** `monkey_business` is the product of the counts of two different
      monkeys. */
  lemma TopTwoProductAttained(t: seq<nat>)
    requires |t| >= 2
    ensures exists i, j :: 0 <= i < |t| && 0 <= j < |t| && i != j && TopTwoProduct(t) == t[i] * t[j]
  {
    var p := TopTwoIndices(t);
    assert TopTwoProduct(t) == t[p.0] * t[p.1];
  }

  /** No two different monkeys have a larger product of counts than
      `monkey_business`. */
  lemma TopTwoProductMaximal(t: seq<nat>)
    requires |t| >= 2
    ensures forall i, j :: 0 <= i < |t| && 0 <= j < |t| && i != j ==> t[i] * t[j] <= TopTwoProduct(t)
  {
    var p := TopTwoIndices(t);
    var a: int, b: int := t[p.0], t[p.1];
    forall i, j | 0 <= i < |t| && 0 <= j < |t| && i != j
      ensures (t[i] as int) * t[j] <= a * b
    {
      if j != p.0 {
        MulMono(t[i], t[j], a, b);
      } else {
        MulMono(t[j], t[i], a, b);
      }
    }
  }

  // ---------------------------------------------------------------------------
  // The state, updated in place

  class State {
    var lcm: nat
    var monkeys: seq<MonkeyState>

    /** `State::from`: the lcm of every test divisor, and each monkey
        holding its starting items with no inspections yet. */
    constructor (descriptions: seq<MonkeyDescription>)
      ensures lcm == LcmOfTests(descriptions)
      ensures monkeys == Initial(descriptions)
    {
      var l := 1;
      for i := 0 to |descriptions|
        invariant l == LcmOfTests(descriptions[..i])
      {
        assert descriptions[..i + 1][..i] == descriptions[..i];
        l := Lcm(l, descriptions[i].testDivision);
      }
      assert descriptions[..|descriptions|] == descriptions;
      lcm := l;
      monkeys := seq(|descriptions|, i requires 0 <= i < |descriptions| => MonkeyState(descriptions[i].startingItems, 0));
    }

    /** `run_monkey`: pops each item from the front of the monkey's queue,
        computes its new worry level, pushes it to the back of its target's
        queue and counts the inspection, until the queue is empty. */
    method RunMonkey(desc: MonkeyDescription, divideBy: nat)
      requires Fits(desc, |monkeys|) && divideBy > 0 && lcm > 0
      modifies this
      ensures lcm == old(lcm)
      ensures monkeys == AfterMonkey(old(monkeys), desc, divideBy, lcm)
    {
      var idx := desc.monkeyIdx;
      ghost var start := monkeys;
      ghost var queue := monkeys[idx].items;
      ghost var k := 0;
      while monkeys[idx].items != []
        invariant lcm == old(lcm)
        invariant |monkeys| == |start| && k <= |queue|
        invariant monkeys == Throw(start, desc, divideBy, lcm, queue[..k])[idx := MonkeyState(queue[k..], start[idx].timesInspected + k)]
        decreases |monkeys[idx].items|
      {
        var worry := monkeys[idx].items[0];
        monkeys := monkeys[idx := monkeys[idx].(items := monkeys[idx].items[1..])];
        var newWorry := (Apply(desc.operation, worry) / divideBy) % lcm;
        var throwTo := ThrowTo(desc, newWorry);
        monkeys := monkeys[throwTo := monkeys[throwTo].(items := monkeys[throwTo].items + [newWorry])];
        monkeys := monkeys[idx := monkeys[idx].(timesInspected := monkeys[idx].timesInspected + 1)];
        assert queue[..k + 1][..k] == queue[..k];
        assert queue[k + 1..] == queue[k..][1..];
        k := k + 1;
      }
      assert queue[..k] == queue;
    }

    /** `run_round`: every description's monkey in turn. */
    method RunRound(descriptions: seq<MonkeyDescription>, divideBy: nat)
      requires AllFit(descriptions, |monkeys|) && divideBy > 0 && lcm > 0
      modifies this
      ensures lcm == old(lcm)
      ensures monkeys == AfterRound(old(monkeys), descriptions, divideBy, lcm)
    {
      ghost var start := monkeys;
      for i := 0 to |descriptions|
        invariant lcm == old(lcm)
        invariant AllFit(descriptions[..i], |start|)
        invariant monkeys == AfterRound(start, descriptions[..i], divideBy, lcm)
      {
        assert descriptions[..i + 1][..i] == descriptions[..i];
        RunMonkey(descriptions[i], divideBy);
      }
      assert descriptions[..|descriptions|] == descriptions;
    }

    /** `monkey_business`. */
    /** The product of the two largest inspection counts: that of two
        different monkeys, and no pair of different monkeys does better. */
    function MonkeyBusiness(): (r: nat)
      reads this
      requires |monkeys| >= 2
      ensures exists i, j :: Business(monkeys, i, j) && r == Product(monkeys, i, j)
      ensures forall i, j :: Business(monkeys, i, j) ==> Product(monkeys, i, j) <= r
    {
      TopTwoOfStates(monkeys);
      TopTwoProduct(Times(monkeys))
    }
  }

  /** Monkeys `i` and `j` are two different monkeys of `ms`. */
  predicate Business(ms: seq<MonkeyState>, i: int, j: int) {
    0 <= i < |ms| && 0 <= j < |ms| && i != j
  }

  function Product(ms: seq<MonkeyState>, i: int, j: int): nat
    requires Business(ms, i, j)
  {
    MulNonNegative(ms[i].timesInspected, ms[j].timesInspected);
    ms[i].timesInspected * ms[j].timesInspected
  }

  lemma ProductOfTimes(ms: seq<MonkeyState>, i: int, j: int)
    requires Business(ms, i, j)
    ensures Product(ms, i, j) == Times(ms)[i] * Times(ms)[j]
  {
  }

  /** The top-two product of the states' counts is attained by two
      different monkeys and beaten by no such pair. */
  lemma TopTwoOfStates(ms: seq<MonkeyState>)
    requires |ms| >= 2
    ensures exists i, j :: Business(ms, i, j) && TopTwoProduct(Times(ms)) == Product(ms, i, j)
    ensures forall i, j :: Business(ms, i, j) ==> Product(ms, i, j) <= TopTwoProduct(Times(ms))
  {
    var t := Times(ms);
    var p := TopTwoIndices(t);
    ProductOfTimes(ms, p.0, p.1);
    assert Business(ms, p.0, p.1) && TopTwoProduct(t) == Product(ms, p.0, p.1);
    forall a, b | Business(ms, a, b)
      ensures Product(ms, a, b) <= TopTwoProduct(t)
    {
      ProductOfTimes(ms, a, b);
      TopTwoProductMaximal(t);
    }
  }

  /** The descriptions a run accepts: at least two monkeys, each one
      fitting among them. */
  predicate ValidInput(input: seq<MonkeyDescription>) {
    |input| >= 2 && AllFit(input, |input|)
  }

  /** Runs `rounds` rounds dividing by `divideBy` and reports the monkey
      business. */
  method Play(input: seq<MonkeyDescription>, rounds: nat, divideBy: nat) returns (business: nat)
    requires ValidInput(input) && divideBy > 0
    ensures LcmOfTests(input) > 0
    ensures business == TopTwoProduct(Times(Rounds(Initial(input), input, divideBy, LcmOfTests(input), rounds)))
  {
    assert TestsPositive(input);
    LcmOfTestsDividesAll(input);
    var state := new State(input);
    for r := 0 to rounds
      invariant state.lcm == LcmOfTests(input)
      invariant state.monkeys == Rounds(Initial(input), input, divideBy, LcmOfTests(input), r)
    {
      state.RunRound(input, divideBy);
    }
    business := state.MonkeyBusiness();
  }

  method Part1(input: seq<MonkeyDescription>) returns (business: nat)
    requires ValidInput(input)
    ensures LcmOfTests(input) > 0
    ensures business == TopTwoProduct(Times(Rounds(Initial(input), input, 3, LcmOfTests(input), 20)))
  {
    business := Play(input, 20, 3);
  }

  method Part2(input: seq<MonkeyDescription>) returns (business: nat)
    requires ValidInput(input)
    ensures LcmOfTests(input) > 0
    ensures business == TopTwoProduct(Times(Rounds(Initial(input), input, 1, LcmOfTests(input), 10000)))
  {
    business := Play(input, 10000, 1);
  }
}
