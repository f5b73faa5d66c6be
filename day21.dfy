/** Day 21: monkeys yell numbers, or the result of an operation on what two
    other monkeys yell. Part 1 evaluates the monkey called `root`; part 2
    asks what the human (`humn`) must yell so that root's two operands are
    equal, by solving backwards from root one operation at a time. */
module Day21 {
  import opened Common
  import Bfs

  // ---------------------------------------------------------------------------
  // Names

  /** A monkey's name: exactly four characters. */
  type MonkeyName = s: seq<char> | |s| == 4 witness "root"

  const Root: MonkeyName := "root"
  const Humn: MonkeyName := "humn"

  /** What `MonkeyName::from_str` returns: the name, or the characters
      when there are not exactly four of them. */
  datatype NameResult = Parsed(name: MonkeyName) | WrongLength(chars: seq<char>)

  /** `MonkeyName::from_str`: the characters collected into an array of four. */
  function ParseName(s: string): (r: NameResult)
    ensures r.Parsed? <==> |s| == 4
    ensures r.WrongLength? ==> r.chars == s
  {
    if |s| == 4 then Parsed(s) else WrongLength(s)
  }

  /** `Display for MonkeyName`: the four characters in order. */
  function ShowName(n: MonkeyName): (s: string)
    ensures |s| == 4
  {
    [n[0], n[1], n[2], n[3]]
  }

  /** Displaying a name and parsing it back gives the name. */
  lemma ParseShowName(n: MonkeyName)
    ensures ParseName(ShowName(n)) == Parsed(n)
  {
    assert ShowName(n) == n;
  }

  /** A parsed name displays as the text it was parsed from. */
  lemma ShowParsedName(s: string)
    requires ParseName(s).Parsed?
    ensures ShowName(ParseName(s).name) == s
  {
  }

  // ---------------------------------------------------------------------------
  // Yells

  datatype MonkeyYell =
    | Number(number: int)
    | Add(left: MonkeyName, right: MonkeyName)
    | Sub(left: MonkeyName, right: MonkeyName)
    | Mul(left: MonkeyName, right: MonkeyName)
    | Div(left: MonkeyName, right: MonkeyName)

  /** `MonkeyYell::dependencies`: no monkeys for a number, the two operands
      in order for an operation. */
  function Dependencies(y: MonkeyYell): (r: Option<(MonkeyName, MonkeyName)>)
    ensures r.None? <==> y.Number?
    ensures r.Some? ==> r.value.0 == y.left && r.value.1 == y.right
  {
    match y
    case Number(_) => None
    case Add(monkey1, monkey2) => Some((monkey1, monkey2))
    case Sub(monkey1, monkey2) => Some((monkey1, monkey2))
    case Mul(monkey1, monkey2) => Some((monkey1, monkey2))
    case Div(monkey1, monkey2) => Some((monkey1, monkey2))
  }

  function Abs(x: int): nat {
    if x < 0 then -x else x
  }

  /** Rust's `/` on `isize`: the quotient rounded toward zero (Dafny's own
      `/` rounds toward negative infinity for a positive divisor). */
  function TruncDiv(a: int, b: int): int
    requires b != 0
  {
    var q := Abs(a) / Abs(b);
    if (a < 0) == (b < 0) then q else -q
  }

  /** The remainder left by the truncating quotient is smaller than the
      divisor and has the sign of the dividend; for non-negative operands it
      is the ordinary quotient. */
  lemma TruncDivMeaning(a: int, b: int)
    requires b != 0
    ensures var rem := a - b * TruncDiv(a, b);
            Abs(rem) < Abs(b) && (rem == 0 || (rem < 0 <==> a < 0))
    ensures a >= 0 && b > 0 ==> TruncDiv(a, b) == a / b
  {
    var Q, R := Abs(a) / Abs(b), Abs(a) % Abs(b);
    assert Abs(a) == Abs(b) * Q + R;
    if a >= 0 && b > 0 {
      assert b * TruncDiv(a, b) == Abs(b) * Q;
      DivUnique(a, b, Q, R);
    } else if a >= 0 {
      assert b * TruncDiv(a, b) == Abs(b) * Q;
    } else if b > 0 {
      assert b * TruncDiv(a, b) == -(Abs(b) * Q);
    } else {
      assert b * TruncDiv(a, b) == -(Abs(b) * Q);
    }
  }

  /** The truncating and the Euclidean quotient differ on negative
      dividends that do not divide evenly: -7 / 2 is -3 in Rust. */
  lemma TruncDivOfNegative()
    ensures TruncDiv(-7, 2) == -3 && -7 / 2 == -4
  {
    DivUnique(7, 2, 3, 1);
    DivUnique(-7, 2, -4, 1);
  }

  lemma AbsMul(k: int, b: int)
    ensures Abs(k * b) == Abs(k) * Abs(b)
  {
    if k < 0 && b < 0 {
      assert k * b == (-k) * (-b);
    } else if k < 0 {
      assert k * b == -((-k) * b);
    } else if b < 0 {
      assert k * b == -(k * (-b));
    }
  }

  /** Dividing a multiple of `b` by `b` is exact. */
  lemma TruncDivExact(k: int, b: int)
    requires b != 0
    ensures TruncDiv(k * b, b) == k
  {
    AbsMul(k, b);
    DivUnique(Abs(k * b), Abs(b), Abs(k), 0);
    if k > 0 {
      if b > 0 { MulAtLeast(b, k); } else { MulAtMost(k, b); }
    } else if k < 0 {
      if b > 0 { MulAtMost(b, k); } else { MulAtLeast(-b, -k); assert k * b == (-b) * (-k); }
    }
  }

  /** The value of an operation on two values; `None` for a division by
      zero, where Rust panics. */
  function Apply(y: MonkeyYell, a: int, b: int): Option<int>
    requires !y.Number?
  {
    match y
    case Add(_, _) => Some(a + b)
    case Sub(_, _) => Some(a - b)
    case Mul(_, _) => Some(a * b)
    case Div(_, _) => if b == 0 then None else Some(TruncDiv(a, b))
  }

  /** The yell `y` evaluates to `v` with the numbers in `known`. */
  predicate Yields(y: MonkeyYell, known: map<MonkeyName, int>, v: int) {
    if y.Number? then v == y.number
    else y.left in known && y.right in known && Apply(y, known[y.left], known[y.right]) == Some(v)
  }

  /** A division whose operands are both known does not divide by zero:
      `resolve_with` would panic. */
  predicate DivisorNonZero(y: MonkeyYell, known: map<MonkeyName, int>) {
    y.Div? && y.left in known && y.right in known ==> known[y.right] != 0
  }

  /** `MonkeyYell::resolve_with`, the lookup being `concrete_numbers.get`: a
      number is itself, an operation needs both operands looked up. */
  function ResolveWith(y: MonkeyYell, known: map<MonkeyName, int>): (r: Option<int>)
    requires DivisorNonZero(y, known)
    ensures r.Some? <==> y.Number? || (y.left in known && y.right in known)
    ensures r.Some? ==> Yields(y, known, r.value)
  {
    match y
    case Number(number) => Some(number)
    case Add(monkey1, monkey2) =>
      if monkey1 in known && monkey2 in known then Some(known[monkey1] + known[monkey2]) else None
    case Sub(monkey1, monkey2) =>
      if monkey1 in known && monkey2 in known then Some(known[monkey1] - known[monkey2]) else None
    case Mul(monkey1, monkey2) =>
      if monkey1 in known && monkey2 in known then Some(known[monkey1] * known[monkey2]) else None
    case Div(monkey1, monkey2) =>
      if monkey1 in known && monkey2 in known then Some(TruncDiv(known[monkey1], known[monkey2])) else None
  }

  /** Learning more numbers never changes what a yell evaluates to. */
  lemma YieldsGrows(y: MonkeyYell, known: map<MonkeyName, int>, k: MonkeyName, v: int, w: int)
    requires Yields(y, known, w) && k !in known
    ensures Yields(y, known[k := v], w)
  {
  }

  // ---------------------------------------------------------------------------
  // The monkeys as a whole

  /** `input.iter().cloned().collect()`: a later row for the same name
      replaces an earlier one. */
  function MonkeyMap(input: seq<(MonkeyName, MonkeyYell)>): (r: map<MonkeyName, MonkeyYell>)
    ensures forall i :: 0 <= i < |input| ==> input[i].0 in r
    ensures forall k :: k in r ==> exists i :: 0 <= i < |input| && input[i] == (k, r[k])
  {
    if input == [] then map[]
    else
      var init := MonkeyMap(input[..|input| - 1]);
      var last := input[|input| - 1];
      assert forall i :: 0 <= i < |input| - 1 ==> input[..|input| - 1][i] == input[i];
      init[last.0 := last.1]
  }

  /** The row that survives for a name is its last one. */
  lemma {:induction false} MonkeyMapLast(input: seq<(MonkeyName, MonkeyYell)>, i: nat)
    requires i < |input| && forall j :: i < j < |input| ==> input[j].0 != input[i].0
    ensures MonkeyMap(input)[input[i].0] == input[i].1
  {
    if i < |input| - 1 {
      var init := input[..|input| - 1];
      assert init[i] == input[i];
      forall j | i < j < |init| ensures init[j].0 != init[i].0 {
        assert init[j] == input[j];
      }
      MonkeyMapLast(init, i);
    }
  }

  /** The operands of an operation are monkeys in `s`. */
  predicate DepsIn(y: MonkeyYell, s: set<MonkeyName>) {
    !y.Number? ==> y.left in s && y.right in s
  }

  /** Every operand names a monkey of the map: `monkey_map[&monkey]` never
      misses for a monkey the search reaches. */
  predicate Closed(mm: map<MonkeyName, MonkeyYell>) {
    forall m :: m in mm ==> DepsIn(mm[m], mm.Keys)
  }

  /** A ranking that puts every operation above its operands: the monkeys
      do not depend on themselves, directly or not. */
  ghost predicate Ranked(mm: map<MonkeyName, MonkeyYell>, rank: map<MonkeyName, nat>) {
    forall m :: m in mm ==> m in rank && (!mm[m].Number? ==>
      mm[m].left in rank && mm[m].right in rank && rank[mm[m].left] < rank[m] && rank[mm[m].right] < rank[m])
  }

  /** What monkey `m` yells when the monkeys in `subst` yell the given
      numbers instead of their rows; `None` when a monkey is missing or a
      division by zero occurs. */
  ghost function Value(mm: map<MonkeyName, MonkeyYell>, rank: map<MonkeyName, nat>, subst: map<MonkeyName, int>, m: MonkeyName): Option<int>
    requires Ranked(mm, rank)
    decreases if m in rank then rank[m] else 0
  {
    if m in subst then Some(subst[m])
    else if m !in mm then None
    else
      var y := mm[m];
      if y.Number? then Some(y.number)
      else
        var a, b := Value(mm, rank, subst, y.left), Value(mm, rank, subst, y.right);
        if a.None? || b.None? then None else Apply(y, a.value, b.value)
  }

  /** Every number found belongs to a monkey of the map that is not
      ignored, and agrees with that monkey's yell and the other numbers. */
  predicate Sound(mm: map<MonkeyName, MonkeyYell>, numbers: map<MonkeyName, int>, ignored: set<MonkeyName>) {
    forall m :: m in numbers ==> m in mm && m !in ignored && Yields(mm[m], numbers, numbers[m])
  }

  /** Without cycles, sound numbers are the values of their monkeys, also
      when the ignored monkeys are given any numbers at all. */
  lemma {:induction false} SoundIsValue(mm: map<MonkeyName, MonkeyYell>, rank: map<MonkeyName, nat>, numbers: map<MonkeyName, int>,
                                        ignored: set<MonkeyName>, subst: map<MonkeyName, int>, m: MonkeyName)
    requires Ranked(mm, rank) && Sound(mm, numbers, ignored) && subst.Keys <= ignored && m in numbers
    ensures Value(mm, rank, subst, m) == Some(numbers[m])
    decreases rank[m]
  {
    var y := mm[m];
    if !y.Number? {
      SoundIsValue(mm, rank, numbers, ignored, subst, y.left);
      SoundIsValue(mm, rank, numbers, ignored, subst, y.right);
    }
  }

  // ---------------------------------------------------------------------------
  // get_concrete_numbers_ignoring

  /** The state of the search that costs every monkey by its distance from
      the root: costs are layered, only monkeys of the map are reached, the
      root sits at cost 0, and every reached monkey has its operands
      reached unless it still waits in the queue. */
  ghost predicate Exploring(mm: map<MonkeyName, MonkeyYell>, root: MonkeyName, cells: map<MonkeyName, Bfs.Cell<MonkeyName>>,
                            consider: seq<MonkeyName>, d: int) {
    && Bfs.Layered(cells, consider, d)
    && cells.Keys <= mm.Keys
    && root in cells && cells[root].cost == 0
    && forall k :: k in cells ==> k in consider || DepsIn(mm[k], cells.Keys)
  }

  lemma {:induction false} SubsetSize<T>(a: set<T>, b: set<T>)
    requires a <= b
    ensures |a| <= |b|
  {
    assert b == (b - a) + a;
    assert (b - a) * a == {};
  }

  /** One edge of the search, from `monkey` to its operand `key`. */
  method Explore(bfs: Bfs.HashMapBfs<MonkeyName>, ghost mm: map<MonkeyName, MonkeyYell>, ghost root: MonkeyName,
                 monkey: MonkeyName, key: MonkeyName, ghost d: int)
    requires bfs.Valid() && monkey in bfs.cells && bfs.cells[monkey].cost == d && key in mm
    requires Bfs.Layered(bfs.cells, bfs.consider, d) && bfs.cells.Keys <= mm.Keys
    requires root in bfs.cells && bfs.cells[root].cost == 0
    modifies bfs
    ensures bfs.Valid() && Bfs.Layered(bfs.cells, bfs.consider, d) && bfs.cells.Keys <= mm.Keys
    ensures root in bfs.cells && bfs.cells[root].cost == 0 && monkey in bfs.cells && bfs.cells[monkey].cost == d
    ensures key in bfs.cells && old(bfs.cells).Keys <= bfs.cells.Keys
    ensures forall k :: k in old(bfs.consider) ==> k in bfs.consider
    ensures forall k :: k in bfs.cells && k !in old(bfs.cells) ==> k in bfs.consider
    ensures |old(bfs.cells)| <= |bfs.cells|
    ensures |old(bfs.cells)| == |bfs.cells| ==> bfs.consider == old(bfs.consider)
  {
    Bfs.LayeredRelax(bfs.cells, bfs.consider, d, monkey, key);
    var _ := bfs.AddEdge(monkey, key, 1);
  }

  /** The first loop of `get_concrete_numbers_ignoring`: the search from
      the root through every operand, until the queue runs dry. */
  method Search(mm: map<MonkeyName, MonkeyYell>, root: MonkeyName) returns (bfs: Bfs.HashMapBfs<MonkeyName>)
    requires root in mm && Closed(mm)
    ensures bfs.cells.Keys <= mm.Keys && root in bfs.cells && bfs.cells[root].cost == 0
    ensures forall k :: k in bfs.cells ==> DepsIn(mm[k], bfs.cells.Keys)
  {
    bfs := new Bfs.HashMapBfs<MonkeyName>();
    bfs.AddRoot(root, 0);
    ghost var d := 0;
    Bfs.LayeredStart(root, 0);
    SubsetSize(bfs.cells.Keys, mm.Keys);
    while true
      invariant bfs.Valid() && Exploring(mm, root, bfs.cells, bfs.consider, d)
      invariant |bfs.cells| <= |mm.Keys|
      decreases |mm.Keys| - |bfs.cells|, |bfs.consider|
    {
      ghost var queue := bfs.consider;
      var next := bfs.ConsiderNext();
      if next.None? {
        break;
      }
      var monkey := next.value;
      Bfs.LayeredPop(bfs.cells, queue, d);
      d := bfs.cells[monkey].cost;
      ExploreOperands(bfs, mm, root, monkey, queue, d);
      SubsetSize(bfs.cells.Keys, mm.Keys);
    }
  }

  /** The body of the search loop: an edge of cost 1 to each operand of
      the monkey just taken from the front of `queue`. */
  method ExploreOperands(bfs: Bfs.HashMapBfs<MonkeyName>, mm: map<MonkeyName, MonkeyYell>, ghost root: MonkeyName,
                         monkey: MonkeyName, ghost queue: seq<MonkeyName>, ghost d: int)
    requires Closed(mm) && bfs.Valid() && queue != [] && monkey == queue[0] && bfs.consider == queue[1..]
    requires monkey in bfs.cells && bfs.cells[monkey].cost == d
    requires Bfs.Layered(bfs.cells, bfs.consider, d) && bfs.cells.Keys <= mm.Keys
    requires root in bfs.cells && bfs.cells[root].cost == 0
    requires forall k :: k in bfs.cells ==> k in queue || DepsIn(mm[k], bfs.cells.Keys)
    modifies bfs
    ensures bfs.Valid() && Exploring(mm, root, bfs.cells, bfs.consider, d)
    ensures |old(bfs.cells)| <= |bfs.cells|
    ensures |old(bfs.cells)| == |bfs.cells| ==> |bfs.consider| < |queue|
  {
    ghost var before := bfs.cells;
    var yell := mm[monkey];
    var deps := Dependencies(yell);
    if deps.Some? {
      Explore(bfs, mm, root, monkey, deps.value.0, d);
      Explore(bfs, mm, root, monkey, deps.value.1, d);
    }
    ClosureKept(mm, before, bfs.cells, queue, bfs.consider);
  }

  /** After the operands of the front of the queue are reached, every
      reached monkey still has its operands reached or is waiting. */
  lemma ClosureKept(mm: map<MonkeyName, MonkeyYell>, before: map<MonkeyName, Bfs.Cell<MonkeyName>>,
                    after: map<MonkeyName, Bfs.Cell<MonkeyName>>, queue: seq<MonkeyName>, consider: seq<MonkeyName>)
    requires queue != [] && before.Keys <= after.Keys && after.Keys <= mm.Keys
    requires forall k :: k in before ==> k in queue || DepsIn(mm[k], before.Keys)
    requires forall k :: k in after && k !in before ==> k in consider
    requires forall k :: k in queue[1..] ==> k in consider
    requires queue[0] in after && DepsIn(mm[queue[0]], after.Keys)
    ensures forall k :: k in after ==> k in consider || DepsIn(mm[k], after.Keys)
  {
    forall k | k in after
      ensures k in consider || DepsIn(mm[k], after.Keys)
    {
      if k in before && k != queue[0] && k in queue {
        var i :| 0 <= i < |queue| && queue[i] == k;
        assert queue[1..][i - 1] == k;
      }
    }
  }

  /** The second loop of `get_concrete_numbers_ignoring`: the reached
      monkeys from the most distant to the root, one of the greatest
      remaining cost each time (ties in an order the hash map decides),
      each resolved from the numbers found so far unless it is ignored.
      `None` where the source panics, on a division by zero. */
  method ResolveByCost(mm: map<MonkeyName, MonkeyYell>, cells: map<MonkeyName, Bfs.Cell<MonkeyName>>, ignored: set<MonkeyName>)
    returns (numbers: Option<map<MonkeyName, int>>, ghost order: seq<MonkeyName>, ghost partial: map<MonkeyName, int>)
    requires cells.Keys <= mm.Keys
    ensures numbers.None? ==> DivisionByZero(mm, cells.Keys, ignored, order, partial)
    ensures forall i :: 0 <= i < |order| ==> order[i] in cells
    ensures forall i, j :: 0 <= i < j < |order| ==> cells[order[j]].cost <= cells[order[i]].cost
    ensures numbers.Some? ==> Sound(mm, numbers.value, ignored)
    ensures numbers.Some? ==> forall m :: m in cells ==> m in order
    ensures numbers.Some? ==> forall m :: m in numbers.value ==> m in cells
  {
    var remaining := cells.Keys;
    var concrete: map<MonkeyName, int> := map[];
    order := [];
    while remaining != {}
      invariant InOrder(cells, remaining, order)
      invariant forall m :: m in concrete ==> m in cells && m !in remaining
      invariant Sound(mm, concrete, ignored)
      decreases |remaining|
    {
      MostDistantExists(remaining, cells);
      var monkey :| monkey in remaining && forall q :: q in remaining ==> cells[q].cost <= cells[monkey].cost;
      InOrderStep(cells, remaining, order, monkey);
      remaining := remaining - {monkey};
      order := order + [monkey];
      if monkey in ignored {
        continue;
      }
      var yell := mm[monkey];
      if !DivisorNonZero(yell, concrete) {
        numbers, partial := None, concrete;
        return;
      }
      concrete := Insert(mm, concrete, ignored, monkey);
    }
    numbers, partial := Some(concrete), concrete;
  }

  /** Why `resolve_with` panics: the last monkey taken is a reached
      division that is not ignored, both its operands have sound numbers,
      and the divisor's is zero. */
  ghost predicate DivisionByZero(mm: map<MonkeyName, MonkeyYell>, reached: set<MonkeyName>,
                                 ignored: set<MonkeyName>, order: seq<MonkeyName>, partial: map<MonkeyName, int>)
  {
    && Sound(mm, partial, ignored)
    && |order| > 0
    && var m := order[|order| - 1];
       && m in reached && m in mm && m !in ignored && mm[m].Div?
       && mm[m].left in partial && mm[m].right in partial && partial[mm[m].right] == 0
  }

  /** The monkeys taken so far, in `order`, are the reached ones not
      `remaining`, by non-increasing cost, and none costs less than a
      monkey still remaining. */
  ghost predicate InOrder(cells: map<MonkeyName, Bfs.Cell<MonkeyName>>, remaining: set<MonkeyName>, order: seq<MonkeyName>) {
    && remaining <= cells.Keys
    && (forall k :: k in cells ==> k in remaining || k in order)
    && (forall i :: 0 <= i < |order| ==> order[i] in cells && order[i] !in remaining)
    && (forall i, j :: 0 <= i < j < |order| ==> cells[order[j]].cost <= cells[order[i]].cost)
    && (forall i, q :: 0 <= i < |order| && q in remaining ==> cells[q].cost <= cells[order[i]].cost)
  }

  /** Taking a remaining monkey of greatest cost keeps the order. */
  lemma InOrderStep(cells: map<MonkeyName, Bfs.Cell<MonkeyName>>, remaining: set<MonkeyName>, order: seq<MonkeyName>, monkey: MonkeyName)
    requires InOrder(cells, remaining, order) && monkey in remaining
    requires forall q :: q in remaining ==> cells[q].cost <= cells[monkey].cost
    ensures InOrder(cells, remaining - {monkey}, order + [monkey])
  {
    var order' := order + [monkey];
    forall i, j | 0 <= i < j < |order'|
      ensures cells[order'[j]].cost <= cells[order'[i]].cost
    {
      assert order'[i] == order[i];
    }
    forall k | k in cells
      ensures k in remaining - {monkey} || k in order'
    {
      if k in order {
        var i :| 0 <= i < |order| && order[i] == k;
        assert order'[i] == k;
      }
      if k == monkey {
        assert order'[|order|] == k;
      }
    }
  }

  /** `if let Some(number) = resolve_with(..) { insert }` for one monkey
      not yet resolved. */
  method Insert(mm: map<MonkeyName, MonkeyYell>, concrete: map<MonkeyName, int>, ignored: set<MonkeyName>, monkey: MonkeyName)
    returns (r: map<MonkeyName, int>)
    requires Sound(mm, concrete, ignored) && monkey in mm && monkey !in ignored && monkey !in concrete
    requires DivisorNonZero(mm[monkey], concrete)
    ensures Sound(mm, r, ignored) && concrete.Keys <= r.Keys <= concrete.Keys + {monkey}
    ensures r.Keys == concrete.Keys + {monkey} <==> ResolveWith(mm[monkey], concrete).Some?
  {
    r := concrete;
    var number := ResolveWith(mm[monkey], concrete);
    if number.Some? {
      r := concrete[monkey := number.value];
      forall m | m in concrete
        ensures Yields(mm[m], r, concrete[m])
      {
        YieldsGrows(mm[m], concrete, monkey, number.value, concrete[m]);
      }
      YieldsGrows(mm[monkey], concrete, monkey, number.value, number.value);
    } else {
      assert monkey !in r.Keys;
    }
  }

  /** `get_concrete_numbers_ignoring`: the numbers of the monkeys that
      resolve, visiting the monkeys reachable from `root` from the most
      distant inwards; `None` where it panics, on a division by zero. */
  method GetConcreteNumbersIgnoring(mm: map<MonkeyName, MonkeyYell>, root: MonkeyName, ignored: set<MonkeyName>)
    returns (numbers: Option<map<MonkeyName, int>>, ghost costs: map<MonkeyName, int>, ghost order: seq<MonkeyName>,
             ghost partial: map<MonkeyName, int>)
    requires root in mm && Closed(mm)
    ensures numbers.None? ==> DivisionByZero(mm, costs.Keys, ignored, order, partial)
    ensures root in costs && costs[root] == 0 && costs.Keys <= mm.Keys
    ensures forall m :: m in costs ==> DepsIn(mm[m], costs.Keys)
    ensures forall i :: 0 <= i < |order| ==> order[i] in costs
    ensures forall i, j :: 0 <= i < j < |order| ==> costs[order[j]] <= costs[order[i]]
    ensures numbers.Some? ==> Sound(mm, numbers.value, ignored)
    ensures numbers.Some? ==> forall m :: m in costs ==> m in order
    ensures numbers.Some? ==> forall m :: m in numbers.value ==> m in costs
  {
    var bfs := Search(mm, root);
    costs := map k | k in bfs.cells :: bfs.cells[k].cost;
    assert costs.Keys == bfs.cells.Keys;
    numbers, order, partial := ResolveByCost(mm, bfs.cells, ignored);
  }

  /** A non-empty set of reached monkeys has one of greatest cost. */
  lemma {:induction false} MostDistantExists(s: set<MonkeyName>, cells: map<MonkeyName, Bfs.Cell<MonkeyName>>)
    requires s != {} && s <= cells.Keys
    ensures exists m :: m in s && forall q :: q in s ==> cells[q].cost <= cells[m].cost
    decreases |s|
  {
    var x :| x in s;
    var rest := s - {x};
    if rest == {} {
      assert s == rest + {x};
    } else {
      MostDistantExists(rest, cells);
      var m :| m in rest && forall q :: q in rest ==> cells[q].cost <= cells[m].cost;
      if cells[m].cost < cells[x].cost {
        assert forall q :: q in s ==> cells[q].cost <= cells[x].cost;
      } else {
        assert forall q :: q in s ==> q == x || q in rest;
      }
    }
  }

  // ---------------------------------------------------------------------------
  // Part 1

  /** `part_1`: the number root yells; `None` where the source panics (root
      unresolved, or a division by zero). Without cycles, it is root's
      value. */
  method Part1(input: seq<(MonkeyName, MonkeyYell)>, ghost rank: map<MonkeyName, nat>) returns (answer: Option<int>)
    requires Root in MonkeyMap(input) && Closed(MonkeyMap(input))
    ensures Ranked(MonkeyMap(input), rank) && answer.Some? ==> Value(MonkeyMap(input), rank, map[], Root) == answer
  {
    var mm := MonkeyMap(input);
    var numbers, costs, order, partial := GetConcreteNumbersIgnoring(mm, Root, {});
    if numbers.None? || Root !in numbers.value {
      return None;
    }
    answer := Some(numbers.value[Root]);
    if Ranked(mm, rank) {
      SoundIsValue(mm, rank, numbers.value, {}, map[], Root);
    }
  }

  // ---------------------------------------------------------------------------
  // Part 2

  /** The human yells `x`. */
  function HumanYells(x: int): map<MonkeyName, int> {
    map[Humn := x]
  }

  /** With the human yelling `x`, root's two operands yell the same number. */
  ghost predicate Balanced(mm: map<MonkeyName, MonkeyYell>, rank: map<MonkeyName, nat>, x: int)
    requires Ranked(mm, rank)
  {
    Root in mm && !mm[Root].Number?
    && var a := Value(mm, rank, HumanYells(x), mm[Root].left);
       a.Some? && a == Value(mm, rank, HumanYells(x), mm[Root].right)
  }

  /** One round of the loop in `part_2`: monkey `y` must yell `t`, its known
      operand yells `number`, and the unknown operand (the left one when
      `unknownLeft`) must then yell the result. `None` where the source
      divides by zero. */
  function Solve(y: MonkeyYell, unknownLeft: bool, number: int, t: int): Option<int>
    requires !y.Number?
  {
    match y
    case Add(_, _) => Some(t - number)
    case Sub(_, _) => if unknownLeft then Some(t + number) else Some(-t + number)
    case Mul(_, _) => if number == 0 then None else Some(TruncDiv(t, number))
    case Div(_, _) =>
      if unknownLeft then Some(t * number)
      else if t == 0 then None else Some(TruncDiv(number, t))
  }

  /** The solved operand really makes `y` yell `t`. */
  predicate Exact(y: MonkeyYell, unknownLeft: bool, number: int, t: int, u: int)
    requires !y.Number?
  {
    (if unknownLeft then Apply(y, u, number) else Apply(y, number, u)) == Some(t)
  }

  /** Solving backwards is exact for sums and differences, for a product
      whose known factor divides the target, for a quotient whose known
      divisor is not zero, and for a quotient whose target divides the
      known dividend with a non-zero result. */
  lemma SolveExactness(y: MonkeyYell, unknownLeft: bool, number: int, t: int)
    requires !y.Number? && Solve(y, unknownLeft, number, t).Some?
    ensures (y.Add? || y.Sub?) ==> Exact(y, unknownLeft, number, t, Solve(y, unknownLeft, number, t).value)
    ensures y.Mul? && (exists k :: t == k * number) ==> Exact(y, unknownLeft, number, t, Solve(y, unknownLeft, number, t).value)
    ensures y.Div? && unknownLeft && number != 0 ==> Exact(y, unknownLeft, number, t, Solve(y, unknownLeft, number, t).value)
    ensures y.Div? && !unknownLeft && (exists k :: k != 0 && number == k * t) ==> Exact(y, unknownLeft, number, t, Solve(y, unknownLeft, number, t).value)
  {
    var u := Solve(y, unknownLeft, number, t).value;
    if y.Mul? && exists k :: t == k * number {
      var k :| t == k * number;
      TruncDivExact(k, number);
      assert u * number == number * u;
    }
    if y.Div? && unknownLeft && number != 0 {
      TruncDivExact(t, number);
    }
    if y.Div? && !unknownLeft && exists k :: k != 0 && number == k * t {
      var k :| k != 0 && number == k * t;
      TruncDivExact(k, t);
      assert u == k;
      assert number == t * k;
      TruncDivExact(t, k);
    }
  }

  /** One step back toward the human: if the unknown operand yells what
      was solved for and the step was exact, the monkey yells its target. */
  lemma StepBack(mm: map<MonkeyName, MonkeyYell>, rank: map<MonkeyName, nat>, numbers: map<MonkeyName, int>,
                 x: int, m: MonkeyName, unknownLeft: bool, t: int, u: int)
    requires Ranked(mm, rank) && Sound(mm, numbers, {Humn}) && m in mm && m != Humn && !mm[m].Number?
    requires if unknownLeft then mm[m].right in numbers else mm[m].left in numbers
    requires Exact(mm[m], unknownLeft, numbers[if unknownLeft then mm[m].right else mm[m].left], t, u)
    requires Value(mm, rank, HumanYells(x), if unknownLeft then mm[m].left else mm[m].right) == Some(u)
    ensures Value(mm, rank, HumanYells(x), m) == Some(t)
  {
    var known := if unknownLeft then mm[m].right else mm[m].left;
    SoundIsValue(mm, rank, numbers, {Humn}, HumanYells(x), known);
  }

  /** The loop's promise: if the monkey still to be solved yells `t`,
      root is balanced. */
  ghost predicate Leads(mm: map<MonkeyName, MonkeyYell>, rank: map<MonkeyName, nat>, m: MonkeyName, t: int)
    requires Ranked(mm, rank)
  {
    forall x :: Value(mm, rank, HumanYells(x), m) == Some(t) ==> Balanced(mm, rank, x)
  }

  /** So an exact step moves the promise one monkey closer to the human. */
  lemma LeadsBack(mm: map<MonkeyName, MonkeyYell>, rank: map<MonkeyName, nat>, numbers: map<MonkeyName, int>,
                  m: MonkeyName, unknownLeft: bool, t: int, u: int)
    requires Ranked(mm, rank) && Sound(mm, numbers, {Humn}) && m in mm && m != Humn && !mm[m].Number?
    requires if unknownLeft then mm[m].right in numbers else mm[m].left in numbers
    requires Exact(mm[m], unknownLeft, numbers[if unknownLeft then mm[m].right else mm[m].left], t, u)
    requires Leads(mm, rank, m, t)
    ensures Leads(mm, rank, if unknownLeft then mm[m].left else mm[m].right, u)
  {
    forall x | Value(mm, rank, HumanYells(x), if unknownLeft then mm[m].left else mm[m].right) == Some(u)
      ensures Balanced(mm, rank, x)
    {
      StepBack(mm, rank, numbers, x, m, unknownLeft, t, u);
    }
  }

  /** One round of the loop in `part_2` as the model records it: the
      monkey solved for, which of its operands is unknown, the number the
      known operand yells, the target and the value solved for. */
  datatype BackStep = BackStep(monkey: MonkeyName, unknownLeft: bool, number: int, target: int, solved: int)

  /** The operand a step solves for next. */
  function UnknownOf(y: MonkeyYell, unknownLeft: bool): MonkeyName
    requires !y.Number?
  {
    if unknownLeft then y.left else y.right
  }

  /** The operand of a step whose number is known. */
  function KnownOf(y: MonkeyYell, unknownLeft: bool): MonkeyName
    requires !y.Number?
  {
    if unknownLeft then y.right else y.left
  }

  /** The other operand of `y`, next to `m`. */
  function OtherOperand(y: MonkeyYell, m: MonkeyName): MonkeyName
    requires !y.Number?
  {
    if m == y.left then y.right else y.left
  }

  /** A step the loop takes: its monkey has an operation, and the value
      solved for is what `Solve` gives. */
  predicate Solved(mm: map<MonkeyName, MonkeyYell>, s: BackStep) {
    s.monkey in mm && !mm[s.monkey].Number? && Solve(mm[s.monkey], s.unknownLeft, s.number, s.target) == Some(s.solved)
  }

  /** One round of the loop in `part_2` at monkey `m`, which must yell
      `t`: exactly one operand is known, and the unknown one must yell the
      value solved for.  `None` where the source panics: `m` yells a
      number, not exactly one operand is known, or solving divides by
      zero. */
  function BackRound(mm: map<MonkeyName, MonkeyYell>, concrete: map<MonkeyName, int>, m: MonkeyName, t: int)
    : (r: Option<BackStep>)
    requires m in mm && Closed(mm)
    ensures r.None? <==>
      || mm[m].Number?
      || ((mm[m].left in concrete) <==> (mm[m].right in concrete))
      || Solve(mm[m], mm[m].left !in concrete, concrete[if mm[m].left in concrete then mm[m].left else mm[m].right], t).None?
    ensures r.Some? ==> r.value.monkey == m && r.value.target == t && Solved(mm, r.value)
    ensures r.Some? ==> (r.value.unknownLeft <==> mm[m].left !in concrete)
    ensures r.Some? ==> var y := mm[m];
      && UnknownOf(y, r.value.unknownLeft) in mm && UnknownOf(y, r.value.unknownLeft) !in concrete
      && (if r.value.unknownLeft then y.right else y.left) in concrete
      && r.value.number == concrete[if r.value.unknownLeft then y.right else y.left]
  {
    var y := mm[m];
    if y.Number? then None
    else if (y.left in concrete) == (y.right in concrete) then None
    else
      var unknownLeft := y.left !in concrete;
      var number := concrete[if unknownLeft then y.right else y.left];
      var solved := Solve(y, unknownLeft, number, t);
      if solved.None? then None
      else Some(BackStep(m, unknownLeft, number, t, solved.value))
  }

  /** A step read off the known numbers `concrete`: its known operand is
      known and the step's number is that operand's, while the operand
      solved for is not known. */
  predicate ReadFrom(mm: map<MonkeyName, MonkeyYell>, concrete: map<MonkeyName, int>, s: BackStep)
    requires Solved(mm, s)
  {
    var y := mm[s.monkey];
    KnownOf(y, s.unknownLeft) in concrete && s.number == concrete[KnownOf(y, s.unknownLeft)]
    && UnknownOf(y, s.unknownLeft) !in concrete
  }

  /** The value solved for makes the step's monkey yell its target. */
  predicate StepIsExact(mm: map<MonkeyName, MonkeyYell>, s: BackStep)
    requires Solved(mm, s)
  {
    Exact(mm[s.monkey], s.unknownLeft, s.number, s.target, s.solved)
  }

  /** Every step is read off the known numbers `concrete`, and consecutive
      steps follow the unknown operand, each targeting what the step before
      solved for. */
  predicate Chained(mm: map<MonkeyName, MonkeyYell>, concrete: map<MonkeyName, int>, steps: seq<BackStep>) {
    && (forall k :: 0 <= k < |steps| ==> Solved(mm, steps[k]) && ReadFrom(mm, concrete, steps[k]))
    && (forall k :: 0 < k < |steps| ==>
          steps[k].monkey == UnknownOf(mm[steps[k - 1].monkey], steps[k - 1].unknownLeft)
          && steps[k].target == steps[k - 1].solved)
  }

  /** One more round extends the chain, keeps its first monkey, and is
      exact throughout exactly when the earlier rounds were and it is. */
  lemma ChainSnoc(mm: map<MonkeyName, MonkeyYell>, concrete: map<MonkeyName, int>, steps: seq<BackStep>,
                  s: BackStep, wasExact: bool)
    requires Chained(mm, concrete, steps) && Solved(mm, s) && ReadFrom(mm, concrete, s)
    requires steps != [] ==>
      s.monkey == UnknownOf(mm[steps[|steps| - 1].monkey], steps[|steps| - 1].unknownLeft)
      && s.target == steps[|steps| - 1].solved
    requires wasExact <==> forall k :: 0 <= k < |steps| ==> StepIsExact(mm, steps[k])
    ensures Chained(mm, concrete, steps + [s])
    ensures (steps + [s])[0] == if steps == [] then s else steps[0]
    ensures (wasExact && StepIsExact(mm, s)) <==>
      forall k :: 0 <= k < |steps + [s]| ==> StepIsExact(mm, (steps + [s])[k])
  {
    var t := steps + [s];
    assert forall k :: 0 <= k < |steps| ==> t[k] == steps[k];
    assert t[|steps|] == s;
  }

  /** Root's operand that is still unknown and the number it must yell,
      which is what the known operand yells; `None` where `part_2` panics:
      root yells a number, or not exactly one of its operands is known. */
  method RootTarget(mm: map<MonkeyName, MonkeyYell>, ghost rank: map<MonkeyName, nat>, concrete: map<MonkeyName, int>)
    returns (target: Option<(MonkeyName, int)>)
    requires Root in mm && Closed(mm) && Ranked(mm, rank) && Sound(mm, concrete, {Humn})
    ensures target.None? <==> mm[Root].Number? || ((mm[Root].left in concrete) <==> (mm[Root].right in concrete))
    ensures target.Some? ==> target.value.0 in {mm[Root].left, mm[Root].right}
    ensures target.Some? ==> target.value.0 in mm && target.value.0 !in concrete
    ensures target.Some? ==> var other := OtherOperand(mm[Root], target.value.0);
      other in concrete && target.value.1 == concrete[other]
    ensures target.Some? ==> Leads(mm, rank, target.value.0, target.value.1)
  {
    var rootDeps := Dependencies(mm[Root]);
    if rootDeps.None? {
      return None;
    }
    if rootDeps.value.0 in concrete && rootDeps.value.1 !in concrete {
      target := Some((rootDeps.value.1, concrete[rootDeps.value.0]));
      forall x | Value(mm, rank, HumanYells(x), target.value.0) == Some(target.value.1)
        ensures Balanced(mm, rank, x)
      {
        SoundIsValue(mm, rank, concrete, {Humn}, HumanYells(x), rootDeps.value.0);
      }
    } else if rootDeps.value.0 !in concrete && rootDeps.value.1 in concrete {
      target := Some((rootDeps.value.0, concrete[rootDeps.value.1]));
      forall x | Value(mm, rank, HumanYells(x), target.value.0) == Some(target.value.1)
        ensures Balanced(mm, rank, x)
      {
        SoundIsValue(mm, rank, concrete, {Humn}, HumanYells(x), rootDeps.value.1);
      }
    } else {
      target := None;
    }
  }

  /** The loop of `part_2`: from monkey `start`, which must yell `target`,
      solve backwards one operand at a time until the human is reached.
      `None` where a round panics.  The ghost `steps` are the rounds, a
      chain from `start` to the human whose last one solves for the
      answer; `exact` holds exactly when every round was exact, and then
      the answer keeps the promise `start` came with. */
  method SolveBack(mm: map<MonkeyName, MonkeyYell>, ghost rank: map<MonkeyName, nat>, concrete: map<MonkeyName, int>,
                   start: MonkeyName, target: int)
    returns (answer: Option<int>, ghost exact: bool, ghost steps: seq<BackStep>)
    requires Closed(mm) && Ranked(mm, rank) && Sound(mm, concrete, {Humn})
    requires start in mm && start !in concrete && Leads(mm, rank, start, target)
    ensures answer.Some? ==> Chained(mm, concrete, steps) && (if steps == [] then Humn else steps[0].monkey) == start
    ensures answer.Some? ==> (if steps == [] then answer.value else steps[0].target) == target
    ensures answer.Some? && steps != [] ==>
      && UnknownOf(mm[steps[|steps| - 1].monkey], steps[|steps| - 1].unknownLeft) == Humn
      && answer.value == steps[|steps| - 1].solved
    ensures answer.Some? ==> (exact <==> forall k :: 0 <= k < |steps| ==> StepIsExact(mm, steps[k]))
    ensures answer.Some? && exact ==> Leads(mm, rank, Humn, answer.value)
  {
    var monkeyNeedsToBe, needsToBe := start, target;
    exact := true;
    steps := [];
    while monkeyNeedsToBe != Humn
      invariant monkeyNeedsToBe in mm && monkeyNeedsToBe !in concrete
      invariant exact ==> Leads(mm, rank, monkeyNeedsToBe, needsToBe)
      invariant Chained(mm, concrete, steps)
      invariant (if steps == [] then monkeyNeedsToBe else steps[0].monkey) == start
      invariant (if steps == [] then needsToBe else steps[0].target) == target
      invariant steps != [] ==>
        && UnknownOf(mm[steps[|steps| - 1].monkey], steps[|steps| - 1].unknownLeft) == monkeyNeedsToBe
        && steps[|steps| - 1].solved == needsToBe
      invariant exact <==> forall k :: 0 <= k < |steps| ==> StepIsExact(mm, steps[k])
      decreases if monkeyNeedsToBe in rank then rank[monkeyNeedsToBe] else 0
    {
      var round := BackRound(mm, concrete, monkeyNeedsToBe, needsToBe);
      if round.None? {
        return None, false, [];
      }
      var s := round.value;
      ghost var wasExact := exact;
      ChainSnoc(mm, concrete, steps, s, wasExact);
      if exact && StepIsExact(mm, s) {
        LeadsBack(mm, rank, concrete, s.monkey, s.unknownLeft, s.target, s.solved);
      } else {
        exact := false;
      }
      steps := steps + [s];
      monkeyNeedsToBe, needsToBe := UnknownOf(mm[s.monkey], s.unknownLeft), s.solved;
    }
    answer := Some(needsToBe);
  }

  /** The numbers the steps read are what their known operands yell,
      whatever the human yells. */
  lemma ReadIsValue(mm: map<MonkeyName, MonkeyYell>, rank: map<MonkeyName, nat>, known: map<MonkeyName, int>,
                    steps: seq<BackStep>)
    requires Ranked(mm, rank) && Sound(mm, known, {Humn}) && Chained(mm, known, steps)
    ensures forall k, x :: 0 <= k < |steps| ==>
      Value(mm, rank, HumanYells(x), KnownOf(mm[steps[k].monkey], steps[k].unknownLeft)) == Some(steps[k].number)
  {
    forall k, x | 0 <= k < |steps|
      ensures Value(mm, rank, HumanYells(x), KnownOf(mm[steps[k].monkey], steps[k].unknownLeft)) == Some(steps[k].number)
    {
      assert ReadFrom(mm, known, steps[k]);
      SoundIsValue(mm, rank, known, {Humn}, HumanYells(x), KnownOf(mm[steps[k].monkey], steps[k].unknownLeft));
    }
  }

  /** The first target of the chain is what root's other operand yells,
      whatever the human yells. */
  lemma OtherIsValue(mm: map<MonkeyName, MonkeyYell>, rank: map<MonkeyName, nat>, known: map<MonkeyName, int>,
                     other: MonkeyName)
    requires Ranked(mm, rank) && Sound(mm, known, {Humn}) && other in known
    ensures forall x :: Value(mm, rank, HumanYells(x), other) == Some(known[other])
  {
    forall x {
      SoundIsValue(mm, rank, known, {Humn}, HumanYells(x), other);
    }
  }

  /** `part_2`: what the human must yell, found by solving root's unknown
      operand backwards to the human; `None` where the source panics (root
      already resolved or a number, not exactly one operand known, a
      number on the way, a division by zero).  The ghost `steps` are the
      rounds of the loop: a chain from one of root's operands down to the
      human, the last one solving for the answer, each reading its number
      off `known`, the numbers found without the human; the first one
      targets root's other operand.  `exact` holds exactly
      when every round was exact, and then the answer balances root. */
  method Part2(input: seq<(MonkeyName, MonkeyYell)>, ghost rank: map<MonkeyName, nat>)
    returns (answer: Option<int>, ghost exact: bool, ghost steps: seq<BackStep>, ghost known: map<MonkeyName, int>)
    requires Root in MonkeyMap(input) && Closed(MonkeyMap(input)) && Ranked(MonkeyMap(input), rank)
    ensures answer.Some? ==> !MonkeyMap(input)[Root].Number? && Sound(MonkeyMap(input), known, {Humn})
    ensures answer.Some? ==> Chained(MonkeyMap(input), known, steps)
    ensures answer.Some? ==>
      (if steps == [] then Humn else steps[0].monkey) in {MonkeyMap(input)[Root].left, MonkeyMap(input)[Root].right}
    ensures answer.Some? ==>
      var other := OtherOperand(MonkeyMap(input)[Root], if steps == [] then Humn else steps[0].monkey);
      && other in known && (if steps == [] then answer.value else steps[0].target) == known[other]
      && forall x :: Value(MonkeyMap(input), rank, HumanYells(x), other) == Some(known[other])
    ensures answer.Some? ==> forall k, x :: 0 <= k < |steps| ==>
      Value(MonkeyMap(input), rank, HumanYells(x), KnownOf(MonkeyMap(input)[steps[k].monkey], steps[k].unknownLeft))
      == Some(steps[k].number)
    ensures answer.Some? && steps != [] ==>
      && UnknownOf(MonkeyMap(input)[steps[|steps| - 1].monkey], steps[|steps| - 1].unknownLeft) == Humn
      && answer.value == steps[|steps| - 1].solved
    ensures answer.Some? ==> (exact <==> forall k :: 0 <= k < |steps| ==> StepIsExact(MonkeyMap(input), steps[k]))
    ensures answer.Some? && exact ==> Balanced(MonkeyMap(input), rank, answer.value)
  {
    var mm := MonkeyMap(input);
    var numbers, costs, order, partial := GetConcreteNumbersIgnoring(mm, Root, {Humn});
    if numbers.None? {
      return None, false, [], map[];
    }
    var concrete := numbers.value;
    if Root in concrete {
      return None, false, [], map[];
    }
    var rootTarget := RootTarget(mm, rank, concrete);
    if rootTarget.None? {
      return None, false, [], map[];
    }
    known := concrete;
    answer, exact, steps := SolveBack(mm, rank, concrete, rootTarget.value.0, rootTarget.value.1);
    if answer.Some? {
      ReadIsValue(mm, rank, known, steps);
      OtherIsValue(mm, rank, known, OtherOperand(mm[Root], rootTarget.value.0));
    }
    if answer.Some? && exact {
      assert Value(mm, rank, HumanYells(answer.value), Humn) == Some(answer.value);
    }
  }

  /** A small input: root adds `aaaa`, the human times two, to `cccc`,
      seven. */
  function SmallInput(): seq<(MonkeyName, MonkeyYell)> {
    [(Root, Add("aaaa", "cccc")), ("aaaa", Mul(Humn, "bbbb")), ("bbbb", Number(2)), ("cccc", Number(7)),
     (Humn, Number(5))]
  }

  function SmallMap(): map<MonkeyName, MonkeyYell> {
    map[Root := Add("aaaa", "cccc"), "aaaa" := Mul(Humn, "bbbb"), "bbbb" := Number(2), "cccc" := Number(7),
        Humn := Number(5)]
  }

  /** The monkey map of the small input, row by row. */
  lemma SmallMonkeyMap()
    ensures MonkeyMap(SmallInput()) == SmallMap()
  {
    var input := SmallInput();
    var r1 := map[Root := Add("aaaa", "cccc")];
    var r2 := r1["aaaa" := Mul(Humn, "bbbb")];
    var r3 := r2["bbbb" := Number(2)];
    var r4 := r3["cccc" := Number(7)];
    var p1: seq<(MonkeyName, MonkeyYell)> := input[..1];
    assert p1[..|p1| - 1] == [];
    assert MonkeyMap(p1) == r1;
    assert input[..2][..1] == input[..1];
    assert MonkeyMap(input[..2]) == r2;
    assert input[..3][..2] == input[..2];
    assert MonkeyMap(input[..3]) == r3;
    assert input[..4][..3] == input[..3];
    assert MonkeyMap(input[..4]) == r4;
    assert input[..4] == input[..|input| - 1];
  }

  /** The small input has no missing operand and no cycle. */
  lemma SmallIsRanked()
    ensures Closed(SmallMap()) && Ranked(SmallMap(), map[Root := 2, "aaaa" := 1, "bbbb" := 0, "cccc" := 0, Humn := 0])
  {
  }

  /** Each step but the last is followed by a step at its unknown operand. */
  lemma ChainNext(mm: map<MonkeyName, MonkeyYell>, concrete: map<MonkeyName, int>, steps: seq<BackStep>, k: nat)
    requires Chained(mm, concrete, steps) && k + 1 < |steps|
    ensures steps[k + 1].monkey == UnknownOf(mm[steps[k].monkey], steps[k].unknownLeft) && Solved(mm, steps[k + 1])
  {
  }

  /** On the small input, a chain from root's operands to the human that
      reads its numbers off sound known numbers and targets root's other
      operand leaves one answer: 7 / 2 rounded toward zero. */
  lemma SmallAnswerPinned(mm: map<MonkeyName, MonkeyYell>, known: map<MonkeyName, int>, steps: seq<BackStep>,
                          answer: int)
    requires mm == SmallMap()
    requires Sound(mm, known, {Humn}) && Chained(mm, known, steps)
    requires (if steps == [] then Humn else steps[0].monkey) in {mm[Root].left, mm[Root].right}
    requires var other := OtherOperand(mm[Root], if steps == [] then Humn else steps[0].monkey);
      other in known && (if steps == [] then answer else steps[0].target) == known[other]
    requires steps != [] ==>
      && UnknownOf(mm[steps[|steps| - 1].monkey], steps[|steps| - 1].unknownLeft) == Humn
      && answer == steps[|steps| - 1].solved
    ensures answer == 3
  {
    var s := steps[0];
    assert Solved(mm, s) && ReadFrom(mm, known, s);
    assert s.monkey == "aaaa";
    assert s.unknownLeft;
    assert s.number == 2 && s.target == 7;
    if |steps| > 1 {
      ChainNext(mm, known, steps, 0);
      assert false;
    }
  }

  /** `part_2` on the small input: its contract leaves one answer. */
  method Part2OnSmallInput() returns (answer: Option<int>)
    ensures answer.Some? ==> answer.value == 3
  {
    SmallMonkeyMap();
    SmallIsRanked();
    ghost var exact, steps, known;
    answer, exact, steps, known := Part2(SmallInput(), map[Root := 2, "aaaa" := 1, "bbbb" := 0, "cccc" := 0, Humn := 0]);
    if answer.Some? {
      SmallAnswerPinned(MonkeyMap(SmallInput()), known, steps, answer.value);
    }
  }
}
