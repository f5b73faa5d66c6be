/** Day 10: cathode-ray tube.  A CPU with one register `x` runs `noop`
    and `addx` instructions; `x` is sampled once per cycle. */
module Day10 {

  datatype Instruction = Noop | AddX(v: int)

  /** Cycles an instruction takes. */
  function Cycles(i: Instruction): nat {
    match i
    case Noop => 1
    case AddX(_) => 2
  }

  function TotalCycles(instrs: seq<Instruction>): nat {
    if instrs == [] then 0 else Cycles(instrs[0]) + TotalCycles(instrs[1..])
  }

  /** What an instruction adds to `x` once it completes. */
  function Increment(i: Instruction): int {
    match i
    case Noop => 0
    case AddX(v) => v
  }

  function TotalIncrement(instrs: seq<Instruction>): int {
    if instrs == [] then 0 else Increment(instrs[0]) + TotalIncrement(instrs[1..])
  }

  /** The values of `x` during each cycle of `instrs`, starting from `x`. */
  function ValuesFrom(x: int, instrs: seq<Instruction>): seq<int>
    decreases |instrs|
  {
    if instrs == [] then []
    else
      match instrs[0]
      case Noop => [x] + ValuesFrom(x, instrs[1..])
      case AddX(v) => [x, x] + ValuesFrom(x + v, instrs[1..])
  }

  /** The values `x_values` yields. */
  function XValues(instrs: seq<Instruction>): seq<int> { ValuesFrom(1, instrs) }

  // ---------------------------------------------------------------------------
  // The state machine

  datatype State = ReadInstruction | ProcessAddX(addition: int)

  /** What is still to be yielded from machine state `state`, register
      `x` and the instructions not read yet. */
  function Pending(state: State, x: int, rest: seq<Instruction>): seq<int> {
    match state
    case ReadInstruction => ValuesFrom(x, rest)
    case ProcessAddX(v) => [x] + ValuesFrom(x + v, rest)
  }

  /** The state after reading instruction `i`. */
  function AfterRead(i: Instruction): State {
    match i
    case Noop => ReadInstruction
    case AddX(v) => ProcessAddX(v)
  }

  /** Reading an instruction yields the current `x` first. */
  lemma ReadStep(x: int, rest: seq<Instruction>)
    requires rest != []
    ensures ValuesFrom(x, rest) == [x] + Pending(AfterRead(rest[0]), x, rest[1..])
  {
  }

  /** `x_values`: each call yields the current `x`, then either reads the
      next instruction (stopping when there is none) or completes a
      pending `addx`. */
  method XValuesMachine(instructions: seq<Instruction>) returns (values: seq<int>)
    ensures values == XValues(instructions)
  {
    var currentXValue := 1;
    var state := ReadInstruction;
    var next := 0;
    values := [];
    ghost var pending := XValues(instructions);
    while true
      invariant next <= |instructions|
      invariant pending == Pending(state, currentXValue, instructions[next..])
      invariant values + pending == XValues(instructions)
      decreases 2 * (|instructions| - next) + (if state.ProcessAddX? then 1 else 0)
    {
      var result := currentXValue;
      if state.ReadInstruction? {
        if next == |instructions| {
          assert pending == [];
          assert values + [] == values;
          return;
        }
        ReadStep(currentXValue, instructions[next..]);
        assert instructions[next..][1..] == instructions[next + 1..];
        state := AfterRead(instructions[next]);
        next := next + 1;
      } else {
        currentXValue := currentXValue + state.addition;
        state := ReadInstruction;
      }
      assert pending == [result] + Pending(state, currentXValue, instructions[next..]);
      assert values + pending == (values + [result]) + pending[1..];
      values := values + [result];
      pending := pending[1..];
    }
  }

  // ---------------------------------------------------------------------------
  // Properties of the values

  lemma {:induction false} ValuesLength(x: int, instrs: seq<Instruction>)
    ensures |ValuesFrom(x, instrs)| == TotalCycles(instrs)
    decreases |instrs|
  {
    if instrs != [] {
      ValuesLength(x + Increment(instrs[0]), instrs[1..]);
    }
  }

  lemma {:induction false} ValuesAppend(x: int, a: seq<Instruction>, b: seq<Instruction>)
    ensures ValuesFrom(x, a + b) == ValuesFrom(x, a) + ValuesFrom(x + TotalIncrement(a), b)
    decreases |a|
  {
    if a == [] {
      assert a + b == b;
    } else {
      assert (a + b)[1..] == a[1..] + b;
      ValuesAppend(x + Increment(a[0]), a[1..], b);
    }
  }

  lemma {:induction false} TotalCyclesAppend(a: seq<Instruction>, b: seq<Instruction>)
    ensures TotalCycles(a + b) == TotalCycles(a) + TotalCycles(b)
  {
    if a == [] {
      assert a + b == b;
    } else {
      assert (a + b)[1..] == a[1..] + b;
      TotalCyclesAppend(a[1..], b);
    }
  }

  /** `x_values` yields one value per `noop` and two per `addx`, and the
      first value is 1. */
  lemma XValuesShape(instrs: seq<Instruction>)
    ensures |XValues(instrs)| == TotalCycles(instrs)
    ensures instrs != [] ==> XValues(instrs)[0] == 1
  {
    ValuesLength(1, instrs);
  }

  /** During every cycle of instruction `n`, `x` is 1 plus the increments of
      all the instructions before it. */
  lemma XValueDuring(instrs: seq<Instruction>, n: nat, k: nat)
    requires n < |instrs| && k < Cycles(instrs[n])
    ensures TotalCycles(instrs[..n]) + k < |XValues(instrs)|
    ensures XValues(instrs)[TotalCycles(instrs[..n]) + k] == 1 + TotalIncrement(instrs[..n])
  {
    var before, rest := instrs[..n], instrs[n..];
    assert instrs == before + rest;
    ValuesAppend(1, before, rest);
    ValuesLength(1, before);
    ValuesLength(1 + TotalIncrement(before), rest);
    assert rest == [instrs[n]] + instrs[n + 1..];
  }

  // ---------------------------------------------------------------------------
  // Part 1

  /** Sum of the signal strengths `cycle * x` at cycles 20, 60, 100, ...,
      for values starting at cycle number `cycle`. */
  function StrengthsFrom(values: seq<int>, cycle: nat): int {
    if values == [] then 0
    else (if (cycle + 20) % 40 == 0 then cycle * values[0] else 0) + StrengthsFrom(values[1..], cycle + 1)
  }

  function Part1(input: seq<Instruction>): int {
    StrengthsFrom(XValues(input), 1)
  }

  /** Only the cycles whose number plus 20 is a multiple of 40 count: two
      runs that agree at those cycles get the same sum. */
  lemma {:induction false} OnlySampledCyclesCount(xs: seq<int>, ys: seq<int>, cycle: nat)
    requires |xs| == |ys|
    requires forall i :: 0 <= i < |xs| && (cycle + i + 20) % 40 == 0 ==> xs[i] == ys[i]
    ensures StrengthsFrom(xs, cycle) == StrengthsFrom(ys, cycle)
  {
    if xs != [] {
      forall i | 0 <= i < |xs| - 1 && (cycle + 1 + i + 20) % 40 == 0
        ensures xs[1..][i] == ys[1..][i]
      {
        assert xs[i + 1] == ys[i + 1];
      }
      OnlySampledCyclesCount(xs[1..], ys[1..], cycle + 1);
    }
  }

  /** Fewer than 20 cycles have no sampled cycle. */
  lemma {:induction false} ShortRunScoresZero(xs: seq<int>, cycle: nat)
    requires 1 <= cycle && cycle + |xs| <= 20
    ensures StrengthsFrom(xs, cycle) == 0
  {
    if xs != [] {
      ShortRunScoresZero(xs[1..], cycle + 1);
    }
  }

  // ---------------------------------------------------------------------------
  // Part 2

  /** The CRT draws `#` when the sprite (three pixels centred on `x`)
      covers horizontal position `h`. */
  function Pixel(h: int, x: int): char {
    if -1 <= h - x < 2 then '#' else '.'
  }

  /** The screen after the first `n` cycles: a newline starts each row of
      40 pixels. */
  function Screen(values: seq<int>, n: nat): string
    requires n <= |values|
  {
    if n == 0 then ""
    else
      var i := n - 1;
      Screen(values, i) + (if i % 40 == 0 then "\n" else "") + [Pixel(i % 40, values[i])]
  }

  /** `part_2`'s loop over the values. */
  method Draw(values: seq<int>) returns (output: string)
    ensures output == Screen(values, |values|)
  {
    output := "";
    for i := 0 to |values|
      invariant output == Screen(values, i)
    {
      if i % 40 == 0 {
        output := output + "\n";
      }
      var hPosition := i % 40;
      if -1 <= hPosition - values[i] < 2 {
        output := output + "#";
      } else {
        output := output + ".";
      }
    }
  }

  method Part2(input: seq<Instruction>) returns (output: string)
    ensures output == Screen(XValues(input), |XValues(input)|)
  {
    var values := XValuesMachine(input);
    output := Draw(values);
  }

  /** Rows already started. */
  function Rows(n: nat): nat { (n + 39) / 40 }

  /** The screen has one character per cycle plus one newline per row; the
      pixel of cycle `i` sits after `i / 40 + 1` newlines, and each row
      starts with a newline. */
  lemma {:induction false} ScreenLayout(values: seq<int>, n: nat)
    requires n <= |values|
    ensures |Screen(values, n)| == n + Rows(n)
    ensures forall i :: 0 <= i < n ==> Screen(values, n)[i + i / 40 + 1] == Pixel(i % 40, values[i])
    ensures forall r :: 0 <= r < Rows(n) ==> Screen(values, n)[41 * r] == '\n'
  {
    if n > 0 {
      var i := n - 1;
      ScreenLayout(values, i);
      var prev := Screen(values, i);
      var s := Screen(values, n);
      assert s[..|prev|] == prev;
      if i % 40 == 0 {
        assert Rows(n) == Rows(i) + 1;
        assert s[|prev|] == '\n';
        assert |prev| == 41 * (i / 40);
      } else {
        assert Rows(n) == Rows(i);
      }
      assert s[i + i / 40 + 1] == Pixel(i % 40, values[i]);
      forall j | 0 <= j < i
        ensures s[j + j / 40 + 1] == Pixel(j % 40, values[j])
      {
        assert s[j + j / 40 + 1] == prev[j + j / 40 + 1];
      }
      forall r | 0 <= r < Rows(n)
        ensures s[41 * r] == '\n'
      {
        if r < Rows(i) {
          assert s[41 * r] == prev[41 * r];
        }
      }
    }
  }
}
