/** Day 2: rock, paper, scissors scored from a strategy guide. */
module Day2 {
  import opened Common

  datatype Shape = Rock | Paper | Scissors
  datatype RoundResult = Lose | Draw | Win

  /** `Shape::from`: the first column letters and the second column
      letters both name shapes; any other character panics (`None`). */
  function ShapeOf(c: char): (s: Option<Shape>)
    ensures s.Some? <==> c in "ABCXYZ"
    ensures s == Some(Rock) <==> c == 'A' || c == 'X'
    ensures s == Some(Paper) <==> c == 'B' || c == 'Y'
  {
    match c
    case 'A' => Some(Rock)
    case 'X' => Some(Rock)
    case 'B' => Some(Paper)
    case 'Y' => Some(Paper)
    case 'C' => Some(Scissors)
    case 'Z' => Some(Scissors)
    case _ => None
  }

  /** `RoundResult::from`: only the second column letters name results. */
  function ResultOf(c: char): (r: Option<RoundResult>)
    ensures r.Some? <==> c in "XYZ"
  {
    match c
    case 'X' => Some(Lose)
    case 'Y' => Some(Draw)
    case 'Z' => Some(Win)
    case _ => None
  }

  function ResultScore(r: RoundResult): nat {
    match r
    case Lose => 0
    case Draw => 3
    case Win => 6
  }

  function ShapeScore(s: Shape): nat {
    match s
    case Rock => 1
    case Paper => 2
    case Scissors => 3
  }

  /** The outcome for the player of `me` against `other`. */
  function PlayAgainst(me: Shape, other: Shape): RoundResult {
    match (me, other)
    case (Rock, Rock) => Draw
    case (Rock, Paper) => Lose
    case (Rock, Scissors) => Win
    case (Paper, Rock) => Win
    case (Paper, Paper) => Draw
    case (Paper, Scissors) => Lose
    case (Scissors, Rock) => Lose
    case (Scissors, Paper) => Win
    case (Scissors, Scissors) => Draw
  }

  /** The shape to play against `opponent` to get `desired`. */
  function WhenPlayingAgainst(desired: RoundResult, opponent: Shape): (s: Shape)
    ensures PlayAgainst(s, opponent) == desired
  {
    match (desired, opponent)
    case (Lose, Rock) => Scissors
    case (Lose, Paper) => Rock
    case (Lose, Scissors) => Paper
    case (Draw, Rock) => Rock
    case (Draw, Paper) => Paper
    case (Draw, Scissors) => Scissors
    case (Win, Rock) => Paper
    case (Win, Paper) => Scissors
    case (Win, Scissors) => Rock
  }

  /** The two scores fall in the ranges the puzzle defines. */
  lemma ScoreRanges(s: Shape, r: RoundResult)
    ensures 1 <= ShapeScore(s) <= 3
    ensures ResultScore(r) in {0, 3, 6}
  {
  }

  /** A shape draws against itself, and a win for one side is a loss for
      the other (so the two result scores always add up to 6). */
  lemma PlayAgainstIsAntisymmetric(a: Shape, b: Shape)
    ensures PlayAgainst(a, a) == Draw
    ensures PlayAgainst(a, b) == Win <==> PlayAgainst(b, a) == Lose
    ensures PlayAgainst(a, b) == Draw <==> a == b
    ensures ResultScore(PlayAgainst(a, b)) + ResultScore(PlayAgainst(b, a)) == 6
  {
  }

  /** Exactly one shape gives each outcome against a given opponent. */
  lemma WhenPlayingAgainstIsUnique(desired: RoundResult, opponent: Shape, s: Shape)
    ensures PlayAgainst(s, opponent) == desired <==> s == WhenPlayingAgainst(desired, opponent)
  {
  }

  datatype RoundStrategy = RoundStrategy(opponent: Shape, your: Shape, desired: RoundResult)

  function Score1(r: RoundStrategy): (score: nat)
    ensures 1 <= score <= 9
  {
    ShapeScore(r.your) + ResultScore(PlayAgainst(r.your, r.opponent))
  }

  function Score2(r: RoundStrategy): (score: nat)
    ensures 1 <= score <= 9
  {
    ShapeScore(WhenPlayingAgainst(r.desired, r.opponent)) + ResultScore(r.desired)
  }

  /** The second reading scores exactly as playing the shape that reaches
      the desired result would score under the first reading. */
  lemma Score2IsScore1OfChosenShape(r: RoundStrategy)
    ensures Score2(r) == Score1(r.(your := WhenPlayingAgainst(r.desired, r.opponent)))
  {
  }

  /** One line of the guide: the opponent's letter, one skipped character
      and the second letter, read both as a shape and as a result.  A
      short line or an unknown letter panics (`None`). */
  function ParseLine(line: string): (r: Option<RoundStrategy>)
    ensures r.Some? <==> |line| >= 3 && line[0] in "ABCXYZ" && line[2] in "XYZ"
    ensures r.Some? ==> (&& Some(r.value.opponent) == ShapeOf(line[0])
                         && Some(r.value.your) == ShapeOf(line[2])
                         && Some(r.value.desired) == ResultOf(line[2]))
  {
    if |line| < 3 then None
    else
      var opponent, your, desired := ShapeOf(line[0]), ShapeOf(line[2]), ResultOf(line[2]);
      if opponent.None? || your.None? || desired.None? then None
      else Some(RoundStrategy(opponent.value, your.value, desired.value))
  }

  /** Both readings of the second letter agree: X is Rock and Lose, Y is
      Paper and Draw, Z is Scissors and Win. */
  lemma SecondColumnReadings(c: char)
    requires c in "XYZ"
    ensures ShapeScore(ShapeOf(c).value) == ResultScore(ResultOf(c).value) / 3 + 1
  {
  }

  /** The generator: every line must decode. */
  function Generator(lines: seq<string>): (rounds: Option<seq<RoundStrategy>>)
    ensures rounds.Some? <==> forall i :: 0 <= i < |lines| ==> ParseLine(lines[i]).Some?
    ensures rounds.Some? ==> (&& |rounds.value| == |lines|
                              && forall i :: 0 <= i < |lines| ==> Some(rounds.value[i]) == ParseLine(lines[i]))
  {
    if lines == [] then Some([])
    else
      var first, rest := ParseLine(lines[0]), Generator(lines[1..]);
      if first.None? || rest.None? then None else Some([first.value] + rest.value)
  }

  function Scores1(rounds: seq<RoundStrategy>): seq<int> {
    seq(|rounds|, i requires 0 <= i < |rounds| => Score1(rounds[i]))
  }

  function Scores2(rounds: seq<RoundStrategy>): seq<int> {
    seq(|rounds|, i requires 0 <= i < |rounds| => Score2(rounds[i]))
  }

  /** Part 1: the total score with the second column read as a shape;
      every round scores between 1 and 9 points. */
  function Part1(rounds: seq<RoundStrategy>): (total: int)
    ensures |rounds| <= total <= 9 * |rounds|
  {
    SumBounds(Scores1(rounds), 1, 9);
    Sum(Scores1(rounds))
  }

  /** Part 2: the total score with the second column read as the desired
      result; every round scores between 1 and 9 points. */
  function Part2(rounds: seq<RoundStrategy>): (total: int)
    ensures |rounds| <= total <= 9 * |rounds|
  {
    SumBounds(Scores2(rounds), 1, 9);
    Sum(Scores2(rounds))
  }

  /** The rounds with the shape chosen for the desired result played. */
  function Chosen(rounds: seq<RoundStrategy>): seq<RoundStrategy> {
    seq(|rounds|, i requires 0 <= i < |rounds| => rounds[i].(your := WhenPlayingAgainst(rounds[i].desired, rounds[i].opponent)))
  }

  /** Part 2 is the part 1 score of the guide in which every round plays
      the shape chosen for its desired result. */
  lemma Part2IsPart1OfChosen(rounds: seq<RoundStrategy>)
    ensures Part2(rounds) == Part1(Chosen(rounds))
  {
    forall i | 0 <= i < |rounds|
      ensures Scores2(rounds)[i] == Scores1(Chosen(rounds))[i]
    {
      Score2IsScore1OfChosenShape(rounds[i]);
    }
    assert Scores2(rounds) == Scores1(Chosen(rounds));
  }
}
