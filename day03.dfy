/** Day 3: rucksack reorganisation.  A rucksack is a string of item types;
    each type has a priority, the misplaced type is the one shared by the
    two halves, and a group's badge is the type shared by three elves. */
module Day3 {
  import opened Common

  /** `char::is_lowercase` follows the Unicode tables, which are outside
      this model, so it is passed in as `isLower`.  What the tables say of
      ASCII: the lowercase characters are exactly 'a'..'z'. */
  predicate AsciiCase(isLower: char -> bool) {
    forall c: char :: (c as int) < 128 ==> (isLower(c) <==> 'a' <= c <= 'z')
  }

  predicate IsLetter(c: char) { 'a' <= c <= 'z' || 'A' <= c <= 'Z' }

  /** `item_type_priority`: counted from 'a' for a lowercase type and from
      'A' otherwise; `None` where that `usize` subtraction underflows and
      panics. */
  function Priority(c: char, isLower: char -> bool): (p: Option<nat>)
    ensures p.Some? <==> (if isLower(c) then 'a' <= c else 'A' <= c)
    ensures p.Some? ==> 1 <= p.value
    ensures AsciiCase(isLower) && 'a' <= c <= 'z' ==> p == Some((c as int) - ('a' as int) + 1) && p.value <= 26
    ensures AsciiCase(isLower) && 'A' <= c <= 'Z' ==> p == Some((c as int) - ('A' as int) + 27) && 27 <= p.value <= 52
  {
    if isLower(c) then
      if 'a' <= c then Some((c as int) - ('a' as int) + 1) else None
    else if 'A' <= c then Some((c as int) - ('A' as int) + 27) else None
  }

  /** With the ASCII case table, a priority panics exactly for the item
      types below 'A', whatever the table says beyond ASCII. */
  lemma PriorityDefined(c: char, isLower: char -> bool)
    requires AsciiCase(isLower)
    ensures Priority(c, isLower).Some? <==> 'A' <= c
  {
    if (c as int) < 128 {
      assert isLower(c) <==> 'a' <= c <= 'z';
    }
  }

  /** Different letters have different priorities. */
  lemma PriorityInjective(a: char, b: char, isLower: char -> bool)
    requires AsciiCase(isLower) && IsLetter(a) && IsLetter(b) && a != b
    ensures Priority(a, isLower) != Priority(b, isLower)
  {
  }

  /** `compartments`: the rucksack split at half its length (rounded down). */
  function Compartments(r: seq<char>): (halves: (seq<char>, seq<char>))
    ensures halves.0 + halves.1 == r
    ensures |halves.0| == |r| / 2 && |halves.1| - |halves.0| in {0, 1}
  {
    (r[..|r| / 2], r[|r| / 2..])
  }

  /** The first position of `s` holding something in `pool`, if any. */
  function FirstIn(s: seq<char>, pool: set<char>): (r: Option<nat>)
    ensures r.Some? ==> r.value < |s| && s[r.value] in pool
    ensures r.Some? ==> forall j :: 0 <= j < r.value ==> s[j] !in pool
    ensures r.None? ==> forall j :: 0 <= j < |s| ==> s[j] !in pool
  {
    if s == [] then None
    else if s[0] in pool then Some(0)
    else
      var rest := FirstIn(s[1..], pool);
      if rest.None? then None else Some(rest.value + 1)
  }

  function Items(s: seq<char>): set<char> { set i | 0 <= i < |s| :: s[i] }

  lemma InItems(s: seq<char>, c: char)
    ensures c in Items(s) <==> c in s
  {
    if c in s {
      var i :| 0 <= i < |s| && s[i] == c;
    }
  }

  /** `error`: the first item of the second half whose type also occurs in
      the first half; a rucksack without one panics (`None`). */
  function Error(r: seq<char>): (e: Option<char>)
    ensures e.Some? ==> e.value in Compartments(r).0 && e.value in Compartments(r).1
    ensures e.Some? ==> exists j :: 0 <= j < |Compartments(r).1| && Compartments(r).1[j] == e.value
                          && forall k :: 0 <= k < j ==> Compartments(r).1[k] !in Compartments(r).0
    ensures e.None? ==> forall c :: c in Compartments(r).1 ==> c !in Compartments(r).0
  {
    var (first, second) := Compartments(r);
    var found := FirstIn(second, Items(first));
    forall c ensures c in Items(first) <==> c in first { InItems(first, c); }
    if found.None? then None else Some(second[found.value])
  }

  /** `badge`: the first item of the third elf whose type both other elves
      carry; a group without one panics (`None`). */
  function Badge(a: seq<char>, b: seq<char>, c: seq<char>): (badge: Option<char>)
    ensures badge.Some? ==> badge.value in a && badge.value in b && badge.value in c
    ensures badge.Some? ==> exists j :: 0 <= j < |c| && c[j] == badge.value
                              && forall k :: 0 <= k < j ==> !(c[k] in a && c[k] in b)
    ensures badge.None? ==> forall x :: x in c ==> !(x in a && x in b)
  {
    var firstTypes := Items(a);
    var secondTypes := set i | 0 <= i < |b| && b[i] in firstTypes :: b[i];
    forall x ensures x in secondTypes <==> x in a && x in b {
      InItems(a, x);
      if x in b { var i :| 0 <= i < |b| && b[i] == x; }
    }
    var found := FirstIn(c, secondTypes);
    if found.None? then None else Some(c[found.value])
  }

  /** Part 1: the sum of the error priorities, panicking on a rucksack
      without an error or with an error whose priority underflows. */
  function Part1(rucksacks: seq<seq<char>>, isLower: char -> bool): (p: Option<int>)
    ensures p.Some? <==> forall i :: 0 <= i < |rucksacks| ==>
      Error(rucksacks[i]).Some? && Priority(Error(rucksacks[i]).value, isLower).Some?
    ensures p.Some? ==> |rucksacks| <= p.value
  {
    if rucksacks == [] then Some(0)
    else
      var e, rest := Error(rucksacks[0]), Part1(rucksacks[1..], isLower);
      assert forall i :: 1 <= i < |rucksacks| ==> rucksacks[1..][i - 1] == rucksacks[i];
      if e.None? || rest.None? then None
      else
        var q := Priority(e.value, isLower);
        if q.None? then None else Some(q.value + rest.value)
  }

  /** `tuples()`: consecutive triples, a trailing incomplete group dropped. */
  function Triples(rucksacks: seq<seq<char>>): (groups: seq<(seq<char>, seq<char>, seq<char>)>)
    ensures |groups| == |rucksacks| / 3
    ensures forall g :: 0 <= g < |groups| ==>
      groups[g] == (rucksacks[3 * g], rucksacks[3 * g + 1], rucksacks[3 * g + 2])
  {
    if |rucksacks| < 3 then []
    else
      var rest := Triples(rucksacks[3..]);
      assert forall g :: 0 <= g < |rest| ==> rucksacks[3..][3 * g] == rucksacks[3 * (g + 1)];
      [(rucksacks[0], rucksacks[1], rucksacks[2])] + rest
  }

  /** The badge of a group, with a priority that does not underflow. */
  predicate Scored(group: (seq<char>, seq<char>, seq<char>), isLower: char -> bool) {
    var b := Badge(group.0, group.1, group.2);
    b.Some? && Priority(b.value, isLower).Some?
  }

  /** The badge priorities of the given groups, panicking on a group
      without a badge or whose badge priority underflows. */
  function BadgeSum(groups: seq<(seq<char>, seq<char>, seq<char>)>, isLower: char -> bool): (p: Option<int>)
    ensures p.Some? <==> forall g :: 0 <= g < |groups| ==> Scored(groups[g], isLower)
    ensures p.Some? ==> |groups| <= p.value
  {
    if groups == [] then Some(0)
    else
      var b, rest := Badge(groups[0].0, groups[0].1, groups[0].2), BadgeSum(groups[1..], isLower);
      assert forall g :: 1 <= g < |groups| ==> groups[1..][g - 1] == groups[g];
      if b.None? || rest.None? then None
      else
        var q := Priority(b.value, isLower);
        if q.None? then None else Some(q.value + rest.value)
  }

  /** Part 2: the badge priorities of consecutive triples of elves. */
  function Part2(rucksacks: seq<seq<char>>, isLower: char -> bool): (p: Option<int>)
    ensures p.Some? <==> forall g :: 0 <= g < |rucksacks| / 3 ==>
      Scored((rucksacks[3 * g], rucksacks[3 * g + 1], rucksacks[3 * g + 2]), isLower)
    ensures p.Some? ==> |rucksacks| / 3 <= p.value
  {
    BadgeSum(Triples(rucksacks), isLower)
  }
}
