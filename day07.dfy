/** Day 7: no space left on device.  A terminal session (`cd` and `ls`
    with their output) is read into instructions, replayed into a map
    from directory path to listing, and sized bottom-up. */
module Day7 {
  import opened Common

  datatype DirItem = File(size: nat, name: string) | Subdirectory(name: string)

  datatype Instruction = CdRoot | CdUp | Cd(dir: string) | Dir(items: seq<DirItem>)

  /** A line of the session, already split at spaces. */
  type Words = seq<string>

  // ---------------------------------------------------------------------------
  // Reading the session

  /** The reader's state: instructions so far, and the listing being
      collected since the last `ls`, if any. */
  datatype Reader = Reader(result: seq<Instruction>, content: Option<seq<DirItem>>)

  /** The instructions, with a pending listing closed off. */
  function Flush(r: Reader): seq<Instruction> {
    if r.content.Some? then r.result + [Dir(r.content.value)] else r.result
  }

  function CdTarget(dir: string): Instruction {
    if dir == "/" then CdRoot else if dir == ".." then CdUp else Cd(dir)
  }

  /** One line; `None` where the reader panics (an unknown command, a
      listing line outside `ls`, a size that does not parse, a missing or
      surplus word). */
  function Feed(r: Reader, w: Words): Option<Reader> {
    if |w| == 0 then None
    else if w[0] == "$" then
      if |w| >= 2 && w[1] == "cd" && |w| == 3 then Some(Reader(Flush(r) + [CdTarget(w[2])], None))
      else if |w| == 2 && w[1] == "ls" then Some(Reader(Flush(r), Some([])))
      else None
    else if w[0] == "dir" then
      if |w| != 2 || r.content.None? then None
      else Some(r.(content := Some(r.content.value + [Subdirectory(w[1])])))
    else
      var size := ParseNat(w[0]);
      if |w| != 2 || r.content.None? || size.None? then None
      else Some(r.(content := Some(r.content.value + [File(size.value, w[1])])))
  }

  function Run(r: Reader, lines: seq<Words>): Option<Reader>
    decreases |lines|
  {
    if lines == [] then Some(r)
    else
      var next := Feed(r, lines[0]);
      if next.None? then None else Run(next.value, lines[1..])
  }

  function Generate(lines: seq<Words>): Option<seq<Instruction>> {
    var r := Run(Reader([], None), lines);
    if r.None? then None else Some(Flush(r.value))
  }

  lemma RunStep(r: Reader, lines: seq<Words>, i: nat, cur: Reader)
    requires i < |lines| && Run(r, lines) == Run(cur, lines[i..]) && Feed(cur, lines[i]).Some?
    ensures Run(r, lines) == Run(Feed(cur, lines[i]).value, lines[i + 1..])
  {
    assert lines[i..][1..] == lines[i + 1..];
  }

  /** `generator`, with the state the source keeps in `result` and
      `dir_content`. */
  method Generator(lines: seq<Words>) returns (instructions: Option<seq<Instruction>>)
    ensures instructions == Generate(lines)
  {
    var result: seq<Instruction> := [];
    var dirContent: Option<seq<DirItem>> := None;
    for i := 0 to |lines|
      invariant Run(Reader([], None), lines) == Run(Reader(result, dirContent), lines[i..])
    {
      var parts := lines[i];
      ghost var before := Reader(result, dirContent);
      if |parts| == 0 {
        return None;
      }
      if parts[0] == "$" {
        if dirContent.Some? {
          result := result + [Dir(dirContent.value)];
          dirContent := None;
        }
        if |parts| < 2 {
          return None;
        }
        if parts[1] == "cd" {
          if |parts| != 3 {
            return None;
          }
          result := result + [CdTarget(parts[2])];
        } else if parts[1] == "ls" {
          if |parts| != 2 {
            return None;
          }
          dirContent := Some([]);
        } else {
          return None;
        }
      } else if parts[0] == "dir" {
        if dirContent.None? || |parts| != 2 {
          return None;
        }
        dirContent := Some(dirContent.value + [Subdirectory(parts[1])]);
      } else {
        var size := ParseNat(parts[0]);
        if dirContent.None? || size.None? || |parts| != 2 {
          return None;
        }
        dirContent := Some(dirContent.value + [File(size.value, parts[1])]);
      }
      assert Feed(before, parts) == Some(Reader(result, dirContent));
      RunStep(Reader([], None), lines, i, before);
    }
    instructions := Some(Flush(Reader(result, dirContent)));
  }

  // The session an instruction list comes from, for the round trip.

  function ItemWords(item: DirItem): Words {
    match item
    case File(size, name) => [NatToString(size), name]
    case Subdirectory(name) => ["dir", name]
  }

  function ItemLines(items: seq<DirItem>): seq<Words> {
    if items == [] then [] else [ItemWords(items[0])] + ItemLines(items[1..])
  }

  function InstructionLines(i: Instruction): seq<Words> {
    match i
    case CdRoot => [["$", "cd", "/"]]
    case CdUp => [["$", "cd", ".."]]
    case Cd(dir) => [["$", "cd", dir]]
    case Dir(items) => [["$", "ls"]] + ItemLines(items)
  }

  function Render(instructions: seq<Instruction>): seq<Words> {
    if instructions == [] then [] else InstructionLines(instructions[0]) + Render(instructions[1..])
  }

  /** `cd` to a name that is not `/` or `..` (those read back differently). */
  predicate Renderable(instructions: seq<Instruction>) {
    forall i :: 0 <= i < |instructions| && instructions[i].Cd? ==> instructions[i].dir != "/" && instructions[i].dir != ".."
  }

  lemma {:induction false} RunAppend(r: Reader, a: seq<Words>, b: seq<Words>)
    ensures Run(r, a + b) == if Run(r, a).None? then None else Run(Run(r, a).value, b)
    decreases |a|
  {
    if a == [] {
      assert a + b == b;
    } else {
      assert (a + b)[0] == a[0] && (a + b)[1..] == a[1..] + b;
      var next := Feed(r, a[0]);
      if next.Some? {
        RunAppend(next.value, a[1..], b);
      }
    }
  }

  lemma NumberIsNotAKeyword(n: nat)
    ensures NatToString(n) != "$" && NatToString(n) != "dir"
  {
    var s := NatToString(n);
    assert IsDigit(s[0]);
  }

  lemma {:induction false} RunItems(acc: seq<Instruction>, c: seq<DirItem>, items: seq<DirItem>)
    ensures Run(Reader(acc, Some(c)), ItemLines(items)) == Some(Reader(acc, Some(c + items)))
    decreases |items|
  {
    if items == [] {
      assert c + items == c;
    } else {
      var lines := ItemLines(items);
      if items[0].File? {
        NumberIsNotAKeyword(items[0].size);
        ParseNatToString(items[0].size);
      }
      assert Feed(Reader(acc, Some(c)), lines[0]) == Some(Reader(acc, Some(c + [items[0]])));
      RunItems(acc, c + [items[0]], items[1..]);
      assert c + [items[0]] + items[1..] == c + items;
    }
  }

  lemma {:induction false} RunRender(r: Reader, instructions: seq<Instruction>)
    requires Renderable(instructions)
    ensures Run(r, Render(instructions)).Some?
    ensures Flush(Run(r, Render(instructions)).value) == Flush(r) + instructions
    decreases |instructions|
  {
    if instructions == [] {
      assert Flush(r) + instructions == Flush(r);
    } else {
      var first, rest := instructions[0], instructions[1..];
      assert Renderable(rest) by {
        forall i | 0 <= i < |rest| && rest[i].Cd? ensures rest[i].dir != "/" && rest[i].dir != ".." {
          assert rest[i] == instructions[i + 1];
        }
      }
      RunAppend(r, InstructionLines(first), Render(rest));
      var lines := InstructionLines(first);
      var after: Reader;
      if first.Dir? {
        assert lines == [["$", "ls"]] + ItemLines(first.items);
        assert lines[1..] == ItemLines(first.items);
        RunItems(Flush(r), [], first.items);
        assert [] + first.items == first.items;
        after := Reader(Flush(r), Some(first.items));
      } else {
        after := Reader(Flush(r) + [first], None);
      }
      assert Run(r, lines) == Some(after);
      RunRender(after, rest);
      assert Flush(after) == Flush(r) + [first];
      assert Flush(r) + [first] + rest == Flush(r) + instructions;
    }
  }

  /** The reader gives back any instruction list whose `cd` names are
      plain directory names. */
  lemma GenerateRender(instructions: seq<Instruction>)
    requires Renderable(instructions)
    ensures Generate(Render(instructions)) == Some(instructions)
  {
    RunRender(Reader([], None), instructions);
    assert Flush(Reader([], None)) == [];
    assert [] + instructions == instructions;
  }

  // ---------------------------------------------------------------------------
  // Replaying into a filesystem

  type Path = seq<string>

  datatype Filesystem = Filesystem(content: map<Path, seq<DirItem>>, position: Path)

  /** One instruction of `build_from_instructions`: `cd /` resets the
      position, `cd ..` pops (nothing happens at the root), `cd x` pushes,
      and a listing is recorded at the current position, replacing any
      earlier one. */
  function BuildStep(fs: Filesystem, i: Instruction): Filesystem {
    match i
    case CdRoot => fs.(position := [])
    case CdUp => if fs.position == [] then fs else fs.(position := fs.position[..|fs.position| - 1])
    case Cd(dir) => fs.(position := fs.position + [dir])
    case Dir(items) => fs.(content := fs.content[fs.position := items])
  }

  function Build(instructions: seq<Instruction>): Filesystem {
    if instructions == [] then Filesystem(map[], [])
    else BuildStep(Build(instructions[..|instructions| - 1]), instructions[|instructions| - 1])
  }

  method BuildFromInstructions(instructions: seq<Instruction>) returns (content: map<Path, seq<DirItem>>)
    ensures content == Build(instructions).content
  {
    content := map[];
    var position: Path := [];
    for i := 0 to |instructions|
      invariant Build(instructions[..i]) == Filesystem(content, position)
    {
      assert instructions[..i + 1][..i] == instructions[..i];
      match instructions[i]
      case CdRoot =>
        position := [];
      case CdUp =>
        if position != [] {
          position := position[..|position| - 1];
        }
      case Cd(dir) =>
        position := position + [dir];
      case Dir(items) =>
        content := content[position := items];
    }
    assert instructions[..|instructions|] == instructions;
  }

  /** One instruction records a directory only by listing it. */
  lemma StepKeys(fs: Filesystem, i: Instruction, p: Path)
    ensures p in BuildStep(fs, i).content <==> p in fs.content || (i.Dir? && fs.position == p)
  {
  }

  /** The recorded directories are exactly the positions at which some
      listing was run. */
  lemma {:induction false} BuildKeys(instructions: seq<Instruction>, p: Path)
    ensures p in Build(instructions).content <==>
      exists i :: 0 <= i < |instructions| && instructions[i].Dir? && Build(instructions[..i]).position == p
  {
    if instructions != [] {
      var n := |instructions| - 1;
      var init := instructions[..n];
      BuildKeys(init, p);
      StepKeys(Build(init), instructions[n], p);
      if p in Build(instructions).content {
        if p in Build(init).content {
          var i :| 0 <= i < n && init[i].Dir? && Build(init[..i]).position == p;
          assert init[..i] == instructions[..i];
        } else {
          assert instructions[..n] == init;
        }
      }
      if exists i :: 0 <= i < |instructions| && instructions[i].Dir? && Build(instructions[..i]).position == p {
        var i :| 0 <= i < |instructions| && instructions[i].Dir? && Build(instructions[..i]).position == p;
        if i < n {
          assert init[i] == instructions[i] && init[..i] == instructions[..i];
        }
      }
    }
  }

  /** `cd x` followed by `cd ..` comes back to where it started. */
  lemma CdThenUp(instructions: seq<Instruction>, dir: string)
    ensures Build(instructions + [Cd(dir), CdUp]).position == Build(instructions).position
  {
    var a := instructions + [Cd(dir), CdUp];
    assert a[..|a| - 1] == instructions + [Cd(dir)];
    assert (instructions + [Cd(dir)])[..|instructions|] == instructions;
  }

  // ---------------------------------------------------------------------------
  // Directory sizes

  /** Every subdirectory that a listing mentions has a listing of its own
      (otherwise looking its size up panics). */
  predicate Closed(content: map<Path, seq<DirItem>>) {
    forall p, k :: p in content && 0 <= k < |content[p]| && content[p][k].Subdirectory? ==>
      p + [content[p][k].name] in content
  }

  ghost function MaxLen(keys: set<Path>): (m: nat)
    ensures forall p :: p in keys ==> |p| <= m
  {
    if keys == {} then 0
    else
      var p :| p in keys;
      var rest := MaxLen(keys - {p});
      if |p| > rest then |p| else rest
  }

  /** Size of a directory: its files plus the sizes of its subdirectories. */
  function DirSize(content: map<Path, seq<DirItem>>, p: Path): nat
    requires Closed(content) && p in content
    decreases MaxLen(content.Keys) - |p|, |content[p]| + 1
  {
    ItemsSize(content, p, |content[p]|)
  }

  /** Size of the first `j` entries of the listing at `p`. */
  function ItemsSize(content: map<Path, seq<DirItem>>, p: Path, j: nat): nat
    requires Closed(content) && p in content && j <= |content[p]|
    decreases MaxLen(content.Keys) - |p|, j
  {
    if j == 0 then 0
    else
      ItemsSize(content, p, j - 1) +
      match content[p][j - 1]
      case File(size, _) => size
      case Subdirectory(d) => assert |p + [d]| <= MaxLen(content.Keys); DirSize(content, p + [d])
  }

  function EntrySize(content: map<Path, seq<DirItem>>, p: Path, k: nat): nat
    requires Closed(content) && p in content && k < |content[p]|
  {
    match content[p][k]
    case File(size, _) => size
    case Subdirectory(d) => DirSize(content, p + [d])
  }

  lemma {:induction false} ItemsSizeCovers(content: map<Path, seq<DirItem>>, p: Path, j: nat, k: nat)
    requires Closed(content) && p in content && k < j <= |content[p]|
    ensures EntrySize(content, p, k) <= ItemsSize(content, p, j)
  {
    if k < j - 1 {
      ItemsSizeCovers(content, p, j - 1, k);
    }
  }

  /** A directory is at least as large as each file and each
      subdirectory it lists. */
  lemma EntryAtMostDirectory(content: map<Path, seq<DirItem>>, p: Path, k: nat)
    requires Closed(content) && p in content && k < |content[p]|
    ensures EntrySize(content, p, k) <= DirSize(content, p)
    ensures content[p][k].Subdirectory? ==> DirSize(content, p + [content[p][k].name]) <= DirSize(content, p)
  {
    ItemsSizeCovers(content, p, |content[p]|, k);
  }

  lemma LongestExists(keys: set<Path>)
    requires keys != {}
    ensures exists p :: p in keys && forall q :: q in keys ==> |q| <= |p|
    decreases |keys|
  {
    var p :| p in keys;
    if keys - {p} != {} {
      LongestExists(keys - {p});
      var q :| q in keys - {p} && forall r :: r in keys - {p} ==> |r| <= |q|;
      if |p| > |q| {
        assert forall r :: r in keys ==> |r| <= |p|;
      } else {
        assert forall r :: r in keys ==> |r| <= |q|;
      }
    } else {
      assert keys == {p};
    }
  }

  /** The inner loop of `calc_from`: the listing at `path` summed, with
      the sizes of its subdirectories taken from `sizes`. */
  method SumListing(content: map<Path, seq<DirItem>>, sizes: map<Path, nat>, path: Path) returns (total: nat)
    requires Closed(content) && path in content
    requires forall k :: 0 <= k < |content[path]| && content[path][k].Subdirectory? ==>
      path + [content[path][k].name] in sizes
    requires forall p :: p in sizes ==> p in content && sizes[p] == DirSize(content, p)
    ensures total == DirSize(content, path)
  {
    var items := content[path];
    total := 0;
    for j := 0 to |items|
      invariant total == ItemsSize(content, path, j)
    {
      match items[j]
      case File(size, _) =>
        total := total + size;
      case Subdirectory(d) =>
        total := total + sizes[path + [d]];
    }
  }

  /** `calc_from`: directories are taken deepest first (the source sorts
      the keys by decreasing length; among equal lengths the hash order is
      arbitrary, so any longest remaining key is taken), so every
      subdirectory's size is known when its parent is summed. */
  method CalcFrom(content: map<Path, seq<DirItem>>) returns (sizes: map<Path, nat>)
    requires Closed(content)
    ensures sizes.Keys == content.Keys
    ensures forall p :: p in sizes ==> sizes[p] == DirSize(content, p)
  {
    sizes := map[];
    var remaining := content.Keys;
    while remaining != {}
      invariant remaining <= content.Keys
      invariant sizes.Keys == content.Keys - remaining
      invariant forall p :: p in sizes ==> sizes[p] == DirSize(content, p)
      invariant forall p, q :: p in sizes && q in remaining ==> |q| <= |p|
      decreases |remaining|
    {
      LongestExists(remaining);
      var path :| path in remaining && forall q :: q in remaining ==> |q| <= |path|;
      var total := SumListing(content, sizes, path);
      sizes := sizes[path := total];
      remaining := remaining - {path};
    }
  }

  function SmallSize(content: map<Path, seq<DirItem>>): Path -> int {
    p => if Closed(content) && p in content && DirSize(content, p) <= 100_000 then DirSize(content, p) else 0
  }

  /** Part 1: the total size of the directories of at most 100000. */
  method Part1(instructions: seq<Instruction>) returns (total: int)
    requires Closed(Build(instructions).content)
    ensures total == SetSum(Build(instructions).content.Keys, SmallSize(Build(instructions).content))
  {
    var content := BuildFromInstructions(instructions);
    var sizes := CalcFrom(content);
    var f := SmallSize(content);
    total := 0;
    var remaining := sizes.Keys;
    while remaining != {}
      invariant remaining <= sizes.Keys
      invariant total + SetSum(remaining, f) == SetSum(sizes.Keys, f)
      decreases |remaining|
    {
      var p :| p in remaining;
      SetSumRemove(remaining, f, p);
      if sizes[p] <= 100_000 {
        total := total + sizes[p];
      }
      remaining := remaining - {p};
    }
  }

  /** Part 2: the smallest directory whose deletion frees enough space.
      The root must be listed, and the unsigned subtractions must not
      underflow: the disk holds at most 70000000 and less than 30000000 is
      free. */
  method Part2(instructions: seq<Instruction>) returns (freed: nat)
    requires var content := Build(instructions).content;
      && Closed(content) && [] in content
      && 40_000_000 <= DirSize(content, []) <= 70_000_000
    ensures var content := Build(instructions).content;
      var needToFree := DirSize(content, []) - 40_000_000;
      && (exists p :: p in content && DirSize(content, p) == freed)
      && needToFree <= freed
      && forall p :: p in content && needToFree <= DirSize(content, p) ==> freed <= DirSize(content, p)
  {
    var content := BuildFromInstructions(instructions);
    var sizes := CalcFrom(content);
    var currentlyUnused := 70_000_000 - sizes[[]];
    var needToFree := 30_000_000 - currentlyUnused;
    freed := sizes[[]];
    var remaining := sizes.Keys;
    while remaining != {}
      invariant remaining <= sizes.Keys
      invariant freed in sizes.Values && needToFree <= freed
      invariant forall p :: p in sizes && p !in remaining && needToFree <= sizes[p] ==> freed <= sizes[p]
      decreases |remaining|
    {
      var p :| p in remaining;
      if needToFree <= sizes[p] && sizes[p] < freed {
        freed := sizes[p];
      }
      remaining := remaining - {p};
    }
    var q :| q in sizes && sizes[q] == freed;
  }
}
