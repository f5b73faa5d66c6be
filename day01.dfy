/** Day 1: calorie counting.  The input is a list of lines; runs of numbers
    separated by blank lines are the items each elf carries. */
module Day1 {
  import opened Common

  /** How many lines, from the front, parse as numbers. */
  function ParsedRun(lines: seq<string>): (k: nat)
    ensures k <= |lines|
    ensures forall i :: 0 <= i < k ==> ParseNat(lines[i]).Some?
    ensures k < |lines| ==> ParseNat(lines[k]).None?
  {
    if lines == [] || ParseNat(lines[0]).None? then 0 else 1 + ParsedRun(lines[1..])
  }

  function Values(lines: seq<string>, k: nat): seq<nat>
    requires k <= |lines| && forall i :: 0 <= i < k ==> ParseNat(lines[i]).Some?
  {
    seq(k, i requires 0 <= i < k => ParseNat(lines[i]).value)
  }

  /** The generator: each batch takes numbers until the first line that
      does not parse (that line is consumed too); an empty batch ends the
      whole list, so no group is ever empty. */
  function Generator(lines: seq<string>): (groups: seq<seq<nat>>)
    ensures forall i :: 0 <= i < |groups| ==> |groups[i]| > 0
    decreases |lines|
  {
    var k := ParsedRun(lines);
    if k == 0 then []
    else [Values(lines, k)] + Generator(if k < |lines| then lines[k + 1..] else [])
  }

  /** Groups written out the way the puzzle input writes them: one number
      per line and a blank line after each group. */
  function GroupLines(g: seq<nat>): (lines: seq<string>)
    ensures |lines| == |g|
    ensures forall i :: 0 <= i < |g| ==> lines[i] == NatToString(g[i])
  {
    if g == [] then [] else [NatToString(g[0])] + GroupLines(g[1..])
  }

  function Render(groups: seq<seq<nat>>): seq<string> {
    if groups == [] then [] else GroupLines(groups[0]) + [""] + Render(groups[1..])
  }

  lemma ParsedRunOfGroup(g: seq<nat>, rest: seq<string>)
    ensures ParsedRun(GroupLines(g) + [""] + rest) == |g|
    decreases |g|
  {
    var lines := GroupLines(g) + [""] + rest;
    if g == [] {
      assert lines[0] == "";
    } else {
      ParseNatToString(g[0]);
      assert lines[1..] == GroupLines(g[1..]) + [""] + rest;
      ParsedRunOfGroup(g[1..], rest);
    }
  }

  /** Reading back what `Render` writes gives the groups back. */
  lemma {:induction false} GeneratorRender(groups: seq<seq<nat>>)
    requires forall i :: 0 <= i < |groups| ==> |groups[i]| > 0
    ensures Generator(Render(groups)) == groups
  {
    var lines := Render(groups);
    if groups == [] {
      assert ParsedRun(lines) == 0;
    } else {
      var g := groups[0];
      assert lines == GroupLines(g) + [""] + Render(groups[1..]);
      ParsedRunOfGroup(g, Render(groups[1..]));
      var k := |g|;
      forall i | 0 <= i < k ensures ParseNat(lines[i]).value == g[i] {
        ParseNatToString(g[i]);
      }
      assert Values(lines, k) == g;
      assert lines[k + 1..] == Render(groups[1..]);
      GeneratorRender(groups[1..]);
    }
  }

  /** The carried total of each elf. */
  function Totals(groups: seq<seq<nat>>): (t: seq<int>)
    ensures |t| == |groups|
    ensures forall i :: 0 <= i < |groups| ==> t[i] == Sum(groups[i]) && t[i] >= 0
  {
    seq(|groups|, i requires 0 <= i < |groups| => SumOfNats(groups[i]))
  }

  function SumOfNats(g: seq<nat>): (s: int)
    ensures s == Sum(g) && s >= 0
  {
    SumNonNegative(g);
    Sum(g)
  }

  /** Part 1: the largest total; `unwrap` needs at least one elf. */
  function Part1(groups: seq<seq<nat>>): (r: int)
    requires |groups| > 0
    ensures forall i :: 0 <= i < |groups| ==> Sum(groups[i]) <= r
    ensures exists i :: 0 <= i < |groups| && Sum(groups[i]) == r
  {
    Max(Totals(groups))
  }

  function Min(a: int, b: int): int { if a < b then a else b }

  /** Part 2: the totals sorted from the largest down, and the first three
      (or all of them, when there are fewer) added up. */
  function Part2(groups: seq<seq<nat>>): int {
    var sorted := SortDescending(Totals(groups));
    Sum(sorted[..Min(3, |sorted|)])
  }

  /** Cutting a sequence sorted from the largest down leaves nothing in
      the tail larger than anything in the head. */
  lemma DescendingSplit(r: seq<int>, k: nat)
    requires k <= |r|
    requires forall i, j :: 0 <= i < j < |r| ==> r[i] >= r[j]
    ensures multiset(r[..k]) + multiset(r[k..]) == multiset(r)
    ensures forall x, y :: x in r[..k] && y in r[k..] ==> y <= x
  {
    assert r == r[..k] + r[k..];
    forall x, y | x in r[..k] && y in r[k..] ensures y <= x {
      var i :| 0 <= i < k && r[i] == x;
      var j :| k <= j < |r| && r[j] == y;
    }
  }

  /** Part 2 adds the largest totals: it takes min(3, n) of them, and no
      total it leaves out exceeds one it takes. */
  lemma Part2TakesLargest(groups: seq<seq<nat>>)
    ensures var sorted := SortDescending(Totals(groups)); var k := Min(3, |groups|);
      && Part2(groups) == Sum(sorted[..k])
      && multiset(sorted[..k]) + multiset(sorted[k..]) == multiset(Totals(groups))
      && forall x, y :: x in sorted[..k] && y in sorted[k..] ==> y <= x
  {
    DescendingSplit(SortDescending(Totals(groups)), Min(3, |groups|));
  }

  /** The top total is among the three added, and none of the three exceeds it. */
  lemma Part1Part2Bounds(groups: seq<seq<nat>>)
    requires |groups| > 0
    ensures Part1(groups) <= Part2(groups) <= 3 * Part1(groups)
  {
    var t := Totals(groups);
    var sorted := SortDescending(t);
    var k := Min(3, |t|);
    SortDescendingHead(t);
    var top := sorted[..k];
    assert top == top[..1] + top[1..];
    SumAppend(top[..1], top[1..]);
    assert top[..1] == [sorted[0]];
    assert Sum([sorted[0]]) == Sum([]) + sorted[0];
    forall i | 0 <= i < |top| ensures 0 <= top[i] <= Max(t) {
      assert top[i] == sorted[i];
      assert sorted[i] in multiset(t);
      SortDescendingBounded(t, i);
    }
    SumBounds(top[1..], 0, Max(t));
    SumBounds(top, 0, Max(t));
  }
}
