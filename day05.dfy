/** Day 5: supply stacks.  Crates sit in stacks (bottom first); a command
    moves a number of crates from the top of one stack onto another, one
    at a time (the block lands reversed) or all at once (order kept). */
module Day5 {
  import opened Common

  /** A command with 0-based stack numbers. */
  datatype Command = Command(amount: nat, from: nat, to: nat)

  type Stacks = seq<seq<char>>

  predicate CanApply(stacks: Stacks, c: Command) {
    c.from < |stacks| && c.to < |stacks| && c.amount <= |stacks[c.from]|
  }

  /** The crates a command lifts off `from`, in the order they land. */
  function Block(stacks: Stacks, c: Command, reverse: bool): (b: seq<char>)
    requires CanApply(stacks, c)
    ensures |b| == c.amount
  {
    var f := stacks[c.from];
    var moved := f[|f| - c.amount..];
    if reverse then Reverse(moved) else moved
  }

  /** `apply_command`: `from` loses its top `amount` crates, then `to`
      gains them on top (when `from == to` the block goes straight back). */
  function Apply(stacks: Stacks, c: Command, reverse: bool): (r: Stacks)
    requires CanApply(stacks, c)
    ensures |r| == |stacks|
    ensures forall i :: 0 <= i < |stacks| && i != c.from && i != c.to ==> r[i] == stacks[i]
    ensures c.from != c.to ==> && r[c.from] == stacks[c.from][..|stacks[c.from]| - c.amount]
                               && r[c.to] == stacks[c.to] + Block(stacks, c, reverse)
    ensures c.from == c.to ==> r[c.to] == stacks[c.from][..|stacks[c.from]| - c.amount] + Block(stacks, c, reverse)
  {
    var f := stacks[c.from];
    var lifted := stacks[c.from := f[..|f| - c.amount]];
    lifted[c.to := lifted[c.to] + Block(stacks, c, reverse)]
  }

  /** All crates, stack after stack. */
  function Flatten(stacks: Stacks): seq<char> {
    if stacks == [] then [] else stacks[0] + Flatten(stacks[1..])
  }

  lemma {:induction false} FlattenUpdate(stacks: Stacks, i: nat, x: seq<char>)
    requires i < |stacks|
    ensures multiset(Flatten(stacks[i := x])) + multiset(stacks[i]) == multiset(Flatten(stacks)) + multiset(x)
  {
    assert Flatten(stacks) == stacks[0] + Flatten(stacks[1..]);
    assert Flatten(stacks[i := x]) == stacks[i := x][0] + Flatten(stacks[i := x][1..]);
    if i > 0 {
      assert stacks[i := x][0] == stacks[0];
      assert stacks[i := x][1..] == stacks[1..][i - 1 := x];
      assert stacks[1..][i - 1] == stacks[i];
      FlattenUpdate(stacks[1..], i - 1, x);
      var head, updated, rest := multiset(stacks[0]), multiset(Flatten(stacks[1..][i - 1 := x])), multiset(Flatten(stacks[1..]));
      calc {
        multiset(Flatten(stacks[i := x])) + multiset(stacks[i]);
        (head + updated) + multiset(stacks[i]);
        head + (updated + multiset(stacks[1..][i - 1]));
        head + (rest + multiset(x));
        (head + rest) + multiset(x);
        multiset(Flatten(stacks)) + multiset(x);
      }
    } else {
      assert stacks[i := x][1..] == stacks[1..];
    }
  }

  /** A command moves crates around but never creates or loses one. */
  lemma ApplyKeepsCrates(stacks: Stacks, c: Command, reverse: bool)
    requires CanApply(stacks, c)
    ensures multiset(Flatten(Apply(stacks, c, reverse))) == multiset(Flatten(stacks))
  {
    var f := stacks[c.from];
    var k := |f| - c.amount;
    var lifted := stacks[c.from := f[..k]];
    var block := Block(stacks, c, reverse);
    assert f == f[..k] + f[k..];
    ReversePreservesMultiset(f[k..]);
    assert multiset(block) == multiset(f[k..]);
    FlattenUpdate(stacks, c.from, f[..k]);
    FlattenUpdate(lifted, c.to, lifted[c.to] + block);
    var final := Apply(stacks, c, reverse);
    assert final == lifted[c.to := lifted[c.to] + block];
    assert multiset(lifted[c.to] + block) == multiset(lifted[c.to]) + multiset(block);
    assert multiset(f) == multiset(f[..k]) + multiset(f[k..]);
    var M, L, R := multiset(Flatten(stacks)), multiset(Flatten(lifted)), multiset(Flatten(final));
    assert L + multiset(f) == M + multiset(f[..k]);
    assert R + multiset(lifted[c.to]) == L + multiset(lifted[c.to] + block);
    forall e ensures R[e] == M[e] {
      assert (L + multiset(f))[e] == (M + multiset(f[..k]))[e];
      assert (R + multiset(lifted[c.to]))[e] == (L + multiset(lifted[c.to] + block))[e];
      assert L[e] + multiset(f)[e] == M[e] + multiset(f[..k])[e];
      assert R[e] + multiset(lifted[c.to])[e] == L[e] + multiset(lifted[c.to])[e] + multiset(block)[e];
    }
    assert R == M;
  }

  /** Moving crates one at a time with the all-at-once mover. */
  function MoveOneByOne(stacks: Stacks, n: nat, from: nat, to: nat): Stacks
    requires from < |stacks| && to < |stacks| && n <= |stacks[from]|
    decreases n
  {
    if n == 0 then stacks
    else MoveOneByOne(Apply(stacks, Command(1, from, to), false), n - 1, from, to)
  }

  /** The reversing mover is the one-crate-at-a-time mover: landing the
      block reversed is what moving its crates singly does. */
  lemma {:induction false} ReverseIsOneAtATime(stacks: Stacks, c: Command)
    requires CanApply(stacks, c) && c.from != c.to
    ensures Apply(stacks, c, true) == MoveOneByOne(stacks, c.amount, c.from, c.to)
    decreases c.amount
  {
    var f, t := stacks[c.from], stacks[c.to];
    var n := c.amount;
    if n == 0 {
      assert f[..|f|] == f;
      assert Apply(stacks, c, true) == stacks;
    } else {
      var s1 := Apply(stacks, Command(1, c.from, c.to), false);
      var c1 := Command(n - 1, c.from, c.to);
      ReverseIsOneAtATime(s1, c1);
      var f1 := s1[c.from];
      assert f1 == f[..|f| - 1];
      assert s1[c.to] == t + [f[|f| - 1]];
      assert f1[|f1| - (n - 1)..] + [f[|f| - 1]] == f[|f| - n..];
      ReverseSnoc(f1[|f1| - (n - 1)..], f[|f| - 1]);
      assert f1[..|f1| - (n - 1)] == f[..|f| - n];
      var l, r := Apply(stacks, c, true), Apply(s1, c1, true);
      assert |l| == |r|;
      forall i | 0 <= i < |l| ensures l[i] == r[i] {
        if i != c.from && i != c.to {
          assert s1[i] == stacks[i];
        }
      }
    }
  }

  /** The crates on top of each stack, left to right. */
  function Tops(stacks: Stacks): string
    requires forall i :: 0 <= i < |stacks| ==> |stacks[i]| > 0
  {
    seq(|stacks|, i requires 0 <= i < |stacks| => stacks[i][|stacks[i]| - 1])
  }

  /** Running all commands in order; any command that asks for more
      crates than its stack holds, or names a missing stack, panics. */
  function ApplyAll(stacks: Stacks, commands: seq<Command>, reverse: bool): (r: Option<Stacks>)
    ensures r.Some? ==> |r.value| == |stacks|
    ensures r.Some? ==> multiset(Flatten(r.value)) == multiset(Flatten(stacks))
    decreases |commands|
  {
    if commands == [] then Some(stacks)
    else if !CanApply(stacks, commands[0]) then None
    else
      ApplyKeepsCrates(stacks, commands[0], reverse);
      ApplyAll(Apply(stacks, commands[0], reverse), commands[1..], reverse)
  }

  predicate AllNonEmpty(stacks: Stacks) {
    forall i :: 0 <= i < |stacks| ==> |stacks[i]| > 0
  }

  class Arrangement {
    var stacks: Stacks

    constructor (initial: Stacks)
      ensures stacks == initial
    {
      stacks := initial;
    }

    method ApplyCommand(c: Command, reverse: bool)
      requires CanApply(stacks, c)
      modifies this
      ensures stacks == Apply(old(stacks), c, reverse)
    {
      var from := stacks[c.from];
      var splet := from[|from| - c.amount..];
      stacks := stacks[c.from := from[..|from| - c.amount]];
      if reverse {
        splet := Reverse(splet);
      }
      stacks := stacks[c.to := stacks[c.to] + splet];
    }

    /** `code`: the top crate of every stack, which must not be empty. */
    method Code() returns (code: string)
      requires AllNonEmpty(stacks)
      ensures |code| == |stacks|
      ensures forall i :: 0 <= i < |stacks| ==> code[i] == stacks[i][|stacks[i]| - 1]
      ensures code == Tops(stacks)
    {
      code := "";
      for i := 0 to |stacks|
        invariant |code| == i
        invariant forall j :: 0 <= j < i ==> code[j] == stacks[j][|stacks[j]| - 1]
      {
        code := code + [stacks[i][|stacks[i]| - 1]];
      }
    }
  }

  /** `part_1` (reverse = true) and `part_2` (reverse = false). */
  method Solve(initial: Stacks, commands: seq<Command>, reverse: bool) returns (code: string)
    requires ApplyAll(initial, commands, reverse).Some?
    requires AllNonEmpty(ApplyAll(initial, commands, reverse).value)
    ensures code == Tops(ApplyAll(initial, commands, reverse).value)
  {
    var arrangement := new Arrangement(initial);
    for i := 0 to |commands|
      invariant ApplyAll(arrangement.stacks, commands[i..], reverse) == ApplyAll(initial, commands, reverse)
    {
      assert commands[i..][1..] == commands[i + 1..];
      arrangement.ApplyCommand(commands[i], reverse);
    }
    code := arrangement.Code();
  }

  // ---------------------------------------------------------------------------
  // Reading the stack layout

  /** A label character: a space labels nothing; anything else names a
      stack by its digit, 1-based (a character at or below '0' underflows). */
  predicate IsLabel(c: char) { c == ' ' || '0' < c }

  function LabelIndex(c: char): Option<nat>
    requires IsLabel(c)
  {
    if c == ' ' then None else Some((c as int) - ('0' as int) - 1)
  }

  function StacksIndex(labels: string): seq<Option<nat>>
    requires AllLabels(labels)
  {
    seq(|labels|, j requires 0 <= j < |labels| => LabelIndex(labels[j]))
  }

  function CountSome(index: seq<Option<nat>>): nat {
    if index == [] then 0 else CountSome(index[..|index| - 1]) + (if index[|index| - 1].Some? then 1 else 0)
  }

  function MinLen(a: nat, b: nat): nat { if a < b then a else b }

  /** A crate line fits when every crate under a label goes to an
      existing stack (anything else indexes out of bounds). */
  predicate Fits(line: string, index: seq<Option<nat>>, n: nat) {
    forall j :: 0 <= j < MinLen(|line|, |index|) && index[j].Some? && line[j] != ' ' ==> index[j].value < n
  }

  /** Pushing the crates of one line, from column `j` on. */
  function PushLine(stacks: Stacks, line: string, index: seq<Option<nat>>, j: nat): (r: Stacks)
    requires j <= MinLen(|line|, |index|) && Fits(line, index, |stacks|)
    ensures |r| == |stacks|
    decreases MinLen(|line|, |index|) - j
  {
    if j == MinLen(|line|, |index|) then stacks
    else
      var next := if index[j].Some? && line[j] != ' '
        then stacks[index[j].value := stacks[index[j].value] + [line[j]]] else stacks;
      PushLine(next, line, index, j + 1)
  }

  /** Pushing whole lines, given bottom line first. */
  function Fill(empty: Stacks, rows: seq<string>, index: seq<Option<nat>>): (r: Stacks)
    requires forall i :: 0 <= i < |rows| ==> Fits(rows[i], index, |empty|)
    ensures |r| == |empty|
  {
    if rows == [] then empty
    else PushLine(Fill(empty, rows[..|rows| - 1], index), rows[|rows| - 1], index, 0)
  }

  /** The crates in one column, bottom line first, spaces skipped. */
  function Column(rows: seq<string>, col: nat): seq<char> {
    if rows == [] then []
    else
      var last := rows[|rows| - 1];
      Column(rows[..|rows| - 1], col) + (if col < |last| && last[col] != ' ' then [last[col]] else [])
  }

  predicate LabelsStack(index: seq<Option<nat>>, col: nat, k: nat) {
    col < |index| && index[col] == Some(k) && forall j :: 0 <= j < |index| && j != col ==> index[j] != Some(k)
  }

  lemma {:induction false} PushLineColumn(stacks: Stacks, line: string, index: seq<Option<nat>>, j: nat, col: nat, k: nat)
    requires j <= MinLen(|line|, |index|) && Fits(line, index, |stacks|)
    requires LabelsStack(index, col, k) && k < |stacks|
    ensures PushLine(stacks, line, index, j)[k]
         == stacks[k] + (if j <= col < |line| && line[col] != ' ' then [line[col]] else [])
    decreases MinLen(|line|, |index|) - j
  {
    if j < MinLen(|line|, |index|) {
      var next := if index[j].Some? && line[j] != ' '
        then stacks[index[j].value := stacks[index[j].value] + [line[j]]] else stacks;
      PushLineColumn(next, line, index, j + 1, col, k);
    }
  }

  /** When column `col` is the only one labelled with stack `k`, that
      stack holds exactly the crates of the column, bottom-up. */
  lemma {:induction false} FillColumn(empty: Stacks, rows: seq<string>, index: seq<Option<nat>>, col: nat, k: nat)
    requires forall i :: 0 <= i < |rows| ==> Fits(rows[i], index, |empty|)
    requires LabelsStack(index, col, k) && k < |empty| && empty[k] == []
    ensures Fill(empty, rows, index)[k] == Column(rows, col)
  {
    if rows != [] {
      var init := rows[..|rows| - 1];
      FillColumn(empty, init, index, col, k);
      PushLineColumn(Fill(empty, init, index), rows[|rows| - 1], index, 0, col, k);
    }
  }

  predicate AllLabels(labels: string) {
    forall j :: 0 <= j < |labels| ==> IsLabel(labels[j])
  }

  predicate LayoutReadable(layout: seq<string>) {
    && |layout| > 0
    && AllLabels(layout[|layout| - 1])
    && var index := StacksIndex(layout[|layout| - 1]);
       forall i :: 0 <= i < |layout| - 1 ==> Fits(layout[i], index, CountSome(index))
  }

  function Empties(n: nat): Stacks {
    seq(n, _ => [])
  }

  /** The layout reader: the last line labels the stacks; the lines above
      it, read bottom-up, push their crates onto the labelled stacks. */
  method ReadLayout(layout: seq<string>) returns (stacks: Stacks)
    requires LayoutReadable(layout)
    ensures var index := StacksIndex(layout[|layout| - 1]);
      stacks == Fill(Empties(CountSome(index)), Reverse(layout[..|layout| - 1]), index)
  {
    var index := StacksIndex(layout[|layout| - 1]);
    var numStacks := CountSome(index);
    ghost var rows := Reverse(layout[..|layout| - 1]);
    stacks := Empties(numStacks);
    var r := |layout| - 1;
    while r > 0
      invariant 0 <= r <= |layout| - 1
      invariant forall i :: 0 <= i < |rows| ==> Fits(rows[i], index, numStacks)
      invariant stacks == Fill(Empties(numStacks), rows[..|layout| - 1 - r], index)
    {
      r := r - 1;
      var line := layout[r];
      assert rows[..|layout| - 1 - r][..|layout| - 2 - r] == rows[..|layout| - 2 - r];
      assert rows[|layout| - 2 - r] == line;
      ghost var start := stacks;
      var j := 0;
      while j < |line| && j < |index|
        invariant 0 <= j <= MinLen(|line|, |index|) && |stacks| == numStacks
        invariant PushLine(stacks, line, index, j) == PushLine(start, line, index, 0)
      {
        if index[j].Some? && line[j] != ' ' {
          stacks := stacks[index[j].value := stacks[index[j].value] + [line[j]]];
        }
        j := j + 1;
      }
    }
    assert rows[..|layout| - 1] == rows;
  }

  // ---------------------------------------------------------------------------
  // Commands as text

  /** The length of the run of decimal digits at the front of `s`. */
  function DigitRun(s: string): (n: nat)
    ensures n <= |s| && AllDigits(s[..n]) && (n < |s| ==> !IsDigit(s[n]))
  {
    if s == [] || !IsDigit(s[0]) then 0
    else
      var n := DigitRun(s[1..]);
      assert s[..n + 1] == [s[0]] + s[1..][..n];
      n + 1
  }

  function Tail(s: string, prefix: string): Option<string> {
    if |prefix| <= |s| && s[..|prefix|] == prefix then Some(s[|prefix|..]) else None
  }

  /** A run of digits followed by `sep`: its value and what follows. */
  function NumberBefore(s: string, sep: string): Option<(nat, string)> {
    var n := DigitRun(s);
    var rest := Tail(s[n..], sep);
    if n == 0 || rest.None? then None else Some((DigitsValue(s[..n]), rest.value))
  }

  /** A run of digits making up all of `s`. */
  function LastNumber(s: string): Option<nat> {
    var n := DigitRun(s);
    if n == 0 || n != |s| then None else Some(DigitsValue(s[..n]))
  }

  /** A command line "move A from F to T" with 1-based stacks; a stack
      number 0 underflows (`None`). */
  function ParseCommand(line: string): Option<Command> {
    var r0 := Tail(line, "move ");
    if r0.None? then None else
    var a := NumberBefore(r0.value, " from ");
    if a.None? then None else
    var f := NumberBefore(a.value.1, " to ");
    if f.None? then None else
    var t := LastNumber(f.value.1);
    if t.None? || f.value.0 == 0 || t.value == 0 then None
    else Some(Command(a.value.0, f.value.0 - 1, t.value - 1))
  }

  /** `Display for Command`: the same line, with 1-based stacks. */
  function Display(c: Command): string {
    "move " + NatToString(c.amount) + " from " + NatToString(c.from + 1) + " to " + NatToString(c.to + 1)
  }

  lemma TailOf(prefix: string, rest: string)
    ensures Tail(prefix + rest, prefix) == Some(rest)
  {
    assert (prefix + rest)[..|prefix|] == prefix;
  }

  lemma DigitRunOf(d: string, rest: string)
    requires AllDigits(d) && (rest == [] || !IsDigit(rest[0]))
    ensures DigitRun(d + rest) == |d|
    ensures (d + rest)[..|d|] == d && (d + rest)[|d|..] == rest
    decreases |d|
  {
    if d != [] {
      assert (d + rest)[1..] == d[1..] + rest;
      DigitRunOf(d[1..], rest);
    }
  }

  lemma NumberBeforeOf(n: nat, sep: string, rest: string)
    requires |sep| > 0 && !IsDigit(sep[0])
    ensures NumberBefore(NatToString(n) + (sep + rest), sep) == Some((n, rest))
  {
    DigitRunOf(NatToString(n), sep + rest);
    TailOf(sep, rest);
    DigitsOfNatToString(n);
  }

  lemma LastNumberOf(n: nat)
    ensures LastNumber(NatToString(n)) == Some(n)
  {
    var d := NatToString(n);
    DigitRunOf(d, []);
    assert d + [] == d;
    DigitsOfNatToString(n);
  }

  /** Parsing what `Display` prints gives the command back. */
  lemma ParseDisplay(c: Command)
    ensures ParseCommand(Display(c)) == Some(c)
  {
    var a, f, t := NatToString(c.amount), NatToString(c.from + 1), NatToString(c.to + 1);
    var r1 := f + (" to " + t);
    var r0 := a + (" from " + r1);
    assert Display(c) == "move " + r0;
    TailOf("move ", r0);
    NumberBeforeOf(c.amount, " from ", r1);
    NumberBeforeOf(c.from + 1, " to ", t);
    LastNumberOf(c.to + 1);
  }

  /** The command lines after the blank separator (leading blank lines
      skipped); every one must parse. */
  function ParseCommands(lines: seq<string>): (r: Option<seq<Command>>)
    ensures r.Some? ==> |r.value| <= |lines|
  {
    if lines == [] then Some([])
    else if lines[0] == "" then ParseCommands(lines[1..])
    else ParseAll(lines)
  }

  function ParseAll(lines: seq<string>): (r: Option<seq<Command>>)
    ensures r.Some? <==> forall i :: 0 <= i < |lines| ==> ParseCommand(lines[i]).Some?
    ensures r.Some? ==> (&& |r.value| == |lines|
                         && forall i :: 0 <= i < |lines| ==> Some(r.value[i]) == ParseCommand(lines[i]))
  {
    if lines == [] then Some([])
    else
      var c, rest := ParseCommand(lines[0]), ParseAll(lines[1..]);
      if c.None? || rest.None? then None else Some([c.value] + rest.value)
  }

  /** Displayed commands read back as the same commands. */
  lemma {:induction false} ParseAllDisplayed(commands: seq<Command>)
    ensures ParseAll(seq(|commands|, i requires 0 <= i < |commands| => Display(commands[i]))) == Some(commands)
  {
    var lines := seq(|commands|, i requires 0 <= i < |commands| => Display(commands[i]));
    forall i | 0 <= i < |commands| ensures ParseCommand(lines[i]) == Some(commands[i]) {
      ParseDisplay(commands[i]);
    }
    var parsed := ParseAll(lines);
    assert parsed.Some?;
    assert forall i :: 0 <= i < |commands| ==> parsed.value[i] == commands[i];
    assert parsed.value == commands;
  }

  /** The position of the first blank line, which separates the layout from
      the commands (`unwrap` panics without one). */
  function FirstEmpty(lines: seq<string>): (k: Option<nat>)
    ensures k.Some? ==> k.value < |lines| && lines[k.value] == ""
    ensures k.Some? ==> forall j :: 0 <= j < k.value ==> lines[j] != ""
    ensures k.None? ==> forall j :: 0 <= j < |lines| ==> lines[j] != ""
  {
    if lines == [] then None
    else if lines[0] == "" then Some(0)
    else
      var rest := FirstEmpty(lines[1..]);
      if rest.None? then None else Some(rest.value + 1)
  }

  /** The whole generator: the layout above the first blank line, the
      commands below it. */
  method Generator(lines: seq<string>) returns (stacks: Stacks, commands: seq<Command>)
    requires FirstEmpty(lines).Some?
    requires LayoutReadable(lines[..FirstEmpty(lines).value])
    requires ParseCommands(lines[FirstEmpty(lines).value..]).Some?
    ensures var layout := lines[..FirstEmpty(lines).value];
      var index := StacksIndex(layout[|layout| - 1]);
      stacks == Fill(Empties(CountSome(index)), Reverse(layout[..|layout| - 1]), index)
    ensures commands == ParseCommands(lines[FirstEmpty(lines).value..]).value
  {
    var sep := FirstEmpty(lines).value;
    stacks := ReadLayout(lines[..sep]);
    commands := ParseCommands(lines[sep..]).value;
  }
}
