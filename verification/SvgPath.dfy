/**
  SVG paths, after graphics/src/SVGLoader.cc: cutting a command list into subpaths, expanding
  commands to one group of numbers each, and drawing a subpath as a polyline.
*/
module SvgPath {
  import opened Common

  datatype SVGCommand = SVGCommand(cmd: char, numbers: seq<real>)

  function ToLower(c: char): char {
    if 'A' <= c <= 'Z' then c - 'A' + 'a' else c
  }

  predicate IsMove(c: SVGCommand) {
    ToLower(c.cmd) == 'm'
  }

  // ----- subpaths -----

  function Flatten(subpaths: seq<seq<SVGCommand>>): seq<SVGCommand> {
    if subpaths == [] then [] else Flatten(subpaths[..|subpaths| - 1]) + subpaths[|subpaths| - 1]
  }

  /** A subpath starts with a move and holds no other. */
  predicate IsSubpath(s: seq<SVGCommand>) {
    s != [] && s[0].cmd in {'m', 'M'} && forall i :: 1 <= i < |s| ==> s[i].cmd !in {'m', 'M'}
  }

  /** The command goes to the last subpath; a move opens one first. */
  function Given(subpaths: seq<seq<SVGCommand>>, c: SVGCommand): seq<seq<SVGCommand>>
    requires IsMove(c) || subpaths != []
  {
    if IsMove(c) then subpaths + [[c]]
    else
      var last := |subpaths| - 1;
      subpaths[..last] + [subpaths[last] + [c]]
  }

  lemma GivenKeepsAll(subpaths: seq<seq<SVGCommand>>, c: SVGCommand)
    requires IsMove(c) || subpaths != []
    ensures Flatten(Given(subpaths, c)) == Flatten(subpaths) + [c]
  {
    var r := Given(subpaths, c);
    if IsMove(c) {
      assert r[..|r| - 1] == subpaths;
    } else {
      assert r[..|r| - 1] == subpaths[..|subpaths| - 1];
      Reassociate(Flatten(subpaths[..|subpaths| - 1]), subpaths[|subpaths| - 1], [c]);
    }
  }

  lemma OpenedThenGiven(subpaths: seq<seq<SVGCommand>>, c: SVGCommand)
    requires IsMove(c) || subpaths != []
    ensures var s := if IsMove(c) then subpaths + [[]] else subpaths;
      s != [] && s[..|s| - 1] + [s[|s| - 1] + [c]] == Given(subpaths, c)
  {
    if IsMove(c) {
      assert (subpaths + [[]])[..|subpaths|] == subpaths;
      assert [] + [c] == [c];
    }
  }

  /** What was added to the subpaths: commands other than moves to the last one, and new subpaths. */
  ghost predicate Extends(before: seq<seq<SVGCommand>>, after: seq<seq<SVGCommand>>) {
    && |before| <= |after|
    && (forall i :: |before| <= i < |after| ==> IsSubpath(after[i]))
    && (forall i :: 0 <= i < |before| - 1 ==> after[i] == before[i])
    && (before != [] ==>
        var k := |before| - 1;
        before[k] <= after[k] && forall c :: c in after[k][|before[k]|..] ==> c.cmd !in {'m', 'M'})
  }

  lemma GivenExtends(before: seq<seq<SVGCommand>>, after: seq<seq<SVGCommand>>, c: SVGCommand)
    requires Extends(before, after) && (IsMove(c) || after != [])
    ensures Extends(before, Given(after, c))
  {
    var r, last := Given(after, c), |after| - 1;
    if !IsMove(c) {
      if last < |before| {
        assert r[last][|before[last]|..] == after[last][|before[last]|..] + [c];
      }
      forall i | |before| <= i < |r|
        ensures IsSubpath(r[i])
      {
        assert IsSubpath(after[i]);
      }
    }
  }

  /** The subpaths hold the first n commands behind what was there. */
  ghost predicate HasSplit(before: seq<seq<SVGCommand>>, after: seq<seq<SVGCommand>>, cmds: seq<SVGCommand>, n: nat) {
    n <= |cmds| && Flatten(after) == Flatten(before) + cmds[..n] && Extends(before, after)
  }

  lemma ExtendsItself(before: seq<seq<SVGCommand>>, cmds: seq<SVGCommand>)
    ensures HasSplit(before, before, cmds, 0)
  {
    assert Flatten(before) + cmds[..0] == Flatten(before);
  }

  lemma GivenSplits(before: seq<seq<SVGCommand>>, given: seq<seq<SVGCommand>>, cmds: seq<SVGCommand>, i: nat)
    requires i < |cmds| && HasSplit(before, given, cmds, i) && (IsMove(cmds[i]) || given != [])
    ensures HasSplit(before, Given(given, cmds[i]), cmds, i + 1)
  {
    GivenKeepsAll(given, cmds[i]);
    GivenExtends(before, given, cmds[i]);
    Reassociate(Flatten(before), cmds[..i], [cmds[i]]);
    assert cmds[..i + 1] == cmds[..i] + [cmds[i]];
  }

  method GiveCommand(ghost before: seq<seq<SVGCommand>>, cmds: seq<SVGCommand>, i: nat, given: seq<seq<SVGCommand>>)
    returns (subpaths: seq<seq<SVGCommand>>)
    requires i < |cmds| && HasSplit(before, given, cmds, i) && (IsMove(cmds[i]) || given != [])
    ensures HasSplit(before, subpaths, cmds, i + 1) && subpaths != []
  {
    subpaths := given;
    if IsMove(cmds[i]) {
      subpaths := subpaths + [[]];
    }
    subpaths := subpaths[..|subpaths| - 1] + [subpaths[|subpaths| - 1] + [cmds[i]]];
    OpenedThenGiven(given, cmds[i]);
    GivenSplits(before, given, cmds, i);
  }

  /** Putting the subpaths together gives the commands back, and every subpath that was added starts
      with a move and holds no other one. The program needs a subpath to be there when the first
      command is not a move. */
  method SplitSubpaths(cmds: seq<SVGCommand>, subpaths0: seq<seq<SVGCommand>>)
    returns (ok: bool, subpaths: seq<seq<SVGCommand>>)
    requires cmds != [] && !IsMove(cmds[0]) ==> subpaths0 != []
    ensures ok <==> cmds != []
    ensures Flatten(subpaths) == Flatten(subpaths0) + cmds
    ensures Extends(subpaths0, subpaths)
  {
    subpaths := subpaths0;
    ExtendsItself(subpaths0, cmds);
    if cmds == [] {
      return false, subpaths;
    }
    var i := 0;
    while i < |cmds|
      invariant i > 0 ==> subpaths != []
      invariant HasSplit(subpaths0, subpaths, cmds, i)
    {
      subpaths := GiveCommand(subpaths0, cmds, i, subpaths);
      i := i + 1;
    }
    assert cmds[..i] == cmds;
    return true, subpaths;
  }

  // ----- expansion -----

  /** How many numbers one use of the command takes; 0 for the others. */
  function GroupSize(c: char): nat {
    match ToLower(c)
    case 'a' => 7
    case 'c' => 6
    case 'm' => 2
    case 'l' => 2
    case 'v' => 1
    case 'h' => 1
    case _ => 0
  }

  /** The numbers come in whole groups. Numbers behind q or z (group size 0) keep the program in its
      loop for ever, a broken last group makes it read past the end. */
  ghost predicate WholeGroups(c: SVGCommand) {
    if GroupSize(c.cmd) == 0 then c.numbers == [] else AreGroups(|c.numbers|, GroupSize(c.cmd))
  }

  predicate AreGroups(n: nat, size: nat)
    requires size > 0
  {
    n == 0 || (n >= size && AreGroups(n - size, size))
  }

  function Groups(c: char, numbers: seq<real>): seq<SVGCommand>
    requires GroupSize(c) > 0 && AreGroups(|numbers|, GroupSize(c))
  {
    var n := GroupSize(c);
    if numbers == [] then [] else [SVGCommand(c, numbers[..n])] + Groups(c, numbers[n..])
  }

  function Expanded(c: SVGCommand): seq<SVGCommand>
    requires WholeGroups(c)
  {
    if GroupSize(c.cmd) > 0 then Groups(c.cmd, c.numbers) else if ToLower(c.cmd) == 'z' then [c] else []
  }

  ghost predicate AllWhole(s: seq<SVGCommand>) {
    forall i :: 0 <= i < |s| ==> WholeGroups(s[i])
  }

  function ExpandedAll(s: seq<SVGCommand>): seq<SVGCommand>
    requires AllWhole(s)
  {
    if s == [] then [] else ExpandedAll(s[..|s| - 1]) + Expanded(s[|s| - 1])
  }

  function NumbersOf(s: seq<SVGCommand>): seq<real> {
    if s == [] then [] else s[0].numbers + NumbersOf(s[1..])
  }

  lemma NumbersCons(group: SVGCommand, others: seq<SVGCommand>)
    ensures NumbersOf([group] + others) == group.numbers + NumbersOf(others)
  {
    assert ([group] + others)[1..] == others;
  }

  lemma GroupsCons(c: char, numbers: seq<real>)
    requires numbers != [] && GroupSize(c) > 0 && AreGroups(|numbers|, GroupSize(c))
    ensures var n := GroupSize(c);
      && n <= |numbers| && AreGroups(|numbers[n..]|, n) && numbers == numbers[..n] + numbers[n..]
      && Groups(c, numbers) == [SVGCommand(c, numbers[..n])] + Groups(c, numbers[n..])
  {
  }

  /** Expansion cuts the numbers of a command into groups, in order, and loses none. */
  lemma {:induction false} ExpansionKeepsNumbers(c: char, numbers: seq<real>)
    requires GroupSize(c) > 0 && AreGroups(|numbers|, GroupSize(c))
    ensures NumbersOf(Groups(c, numbers)) == numbers
    ensures forall i :: 0 <= i < |Groups(c, numbers)| ==>
      Groups(c, numbers)[i].cmd == c && |Groups(c, numbers)[i].numbers| == GroupSize(c)
  {
    if numbers != [] {
      hide Groups, NumbersOf, AreGroups, GroupSize;
      var n := GroupSize(c);
      GroupsCons(c, numbers);
      ExpansionKeepsNumbers(c, numbers[n..]);
      NumbersCons(SVGCommand(c, numbers[..n]), Groups(c, numbers[n..]));
    }
  }

  /** How many numbers one use of each letter takes. */
  function NumbersFor(c: char): nat {
    if c in "mMlL" then 2 else if c in "cC" then 6 else if c in "aA" then 7 else if c in "vVhH" then 1 else 0
  }

  /** An expanded command is made of commands with its letter and as many numbers as one use takes, which
      together are its numbers; Z and z stay, other letters that take none are dropped. */
  lemma ExpandedInGroups(c: SVGCommand)
    requires WholeGroups(c)
    ensures NumbersOf(Expanded(c)) == c.numbers
    ensures forall i :: 0 <= i < |Expanded(c)| ==>
      Expanded(c)[i].cmd == c.cmd && |Expanded(c)[i].numbers| == NumbersFor(c.cmd)
    ensures NumbersFor(c.cmd) == 0 ==> Expanded(c) == if c.cmd in "zZ" then [c] else []
  {
    assert GroupSize(c.cmd) == NumbersFor(c.cmd);
    if NumbersFor(c.cmd) > 0 {
      hide NumbersFor;
      ExpansionKeepsNumbers(c.cmd, c.numbers);
    }
  }

  /** Commands are expanded one after the other. */
  lemma {:induction false} ExpandedInOrder(a: seq<SVGCommand>, b: seq<SVGCommand>, c: SVGCommand)
    requires AllWhole(a) && AllWhole(b) && WholeGroups(c)
    ensures AllWhole(a + b) && ExpandedAll(a + b) == ExpandedAll(a) + ExpandedAll(b)
    ensures AllWhole([c]) && ExpandedAll([c]) == Expanded(c)
    decreases |b|
  {
    assert [c][..0] == [];
    if b == [] {
      assert a + b == a;
    } else {
      assert (a + b)[..|a + b| - 1] == a + b[..|b| - 1];
      ExpandedInOrder(a, b[..|b| - 1], c);
    }
  }

  lemma GroupsNext(c: char, numbers: seq<real>, n: nat)
    requires GroupSize(c) > 0 && n < |numbers| && AreGroups(|numbers| - n, GroupSize(c))
    ensures var k := GroupSize(c);
      n + k <= |numbers| && Groups(c, numbers[n..]) == [SVGCommand(c, numbers[n..n + k])] + Groups(c, numbers[n + k..])
  {
    var k := GroupSize(c);
    assert numbers[n..][..k] == numbers[n..n + k] && numbers[n..][k..] == numbers[n + k..];
  }

  /** The next group of numbers. */
  method ReadGroup(from: seq<real>, n: nat, numberCount: nat) returns (numbers: seq<real>)
    requires n + numberCount <= |from|
    ensures numbers == from[n..n + numberCount]
  {
    numbers := [];
    var i := 0;
    while i < numberCount
      invariant i <= numberCount && numbers == from[n..n + i]
    {
      numbers := numbers + [from[i + n]];
      i := i + 1;
    }
  }

  /** From number n on the loop has to append the rest of the goal. */
  ghost predicate GroupsRemain(xCmd: SVGCommand, n: nat, subpath: seq<SVGCommand>, goal: seq<SVGCommand>)
    requires GroupSize(xCmd.cmd) > 0
  {
    && n <= |xCmd.numbers| && AreGroups(|xCmd.numbers| - n, GroupSize(xCmd.cmd))
    && subpath + Groups(xCmd.cmd, xCmd.numbers[n..]) == goal
  }

  method AddGroup(xCmd: SVGCommand, n: nat, subpath0: seq<SVGCommand>, ghost goal: seq<SVGCommand>)
    returns (subpath: seq<SVGCommand>)
    requires GroupSize(xCmd.cmd) > 0 && n < |xCmd.numbers| && GroupsRemain(xCmd, n, subpath0, goal)
    ensures GroupsRemain(xCmd, n + GroupSize(xCmd.cmd), subpath, goal)
  {
    GroupsNext(xCmd.cmd, xCmd.numbers, n);
    var numberCount := GroupSize(xCmd.cmd);
    var numbers := ReadGroup(xCmd.numbers, n, numberCount);
    Reassociate(subpath0, [SVGCommand(xCmd.cmd, numbers)], Groups(xCmd.cmd, xCmd.numbers[n + numberCount..]));
    subpath := subpath0 + [SVGCommand(xCmd.cmd, numbers)];
  }

  /** The loop over the groups of one command. */
  method ExpandCommand(xCmd: SVGCommand, subpath0: seq<SVGCommand>) returns (subpath: seq<SVGCommand>)
    requires WholeGroups(xCmd)
    ensures subpath == subpath0 + Expanded(xCmd)
  {
    hide Groups, AreGroups, GroupsRemain;
    GroupsBegin(xCmd, subpath0);
    subpath := subpath0;
    var numberCount := GroupSize(xCmd.cmd);
    if ToLower(xCmd.cmd) == 'z' {
      subpath := subpath + [xCmd];
    }
    var n := 0;
    while n < |xCmd.numbers|
      invariant numberCount == 0 ==> n == |xCmd.numbers| && subpath == subpath0 + Expanded(xCmd)
      invariant numberCount > 0 ==> GroupsRemain(xCmd, n, subpath, subpath0 + Expanded(xCmd))
    {
      subpath := AddGroup(xCmd, n, subpath, subpath0 + Expanded(xCmd));
      n := n + numberCount;
    }
    if numberCount > 0 {
      GroupsEnd(xCmd, n, subpath, subpath0 + Expanded(xCmd));
    }
  }

  lemma GroupsBegin(xCmd: SVGCommand, subpath: seq<SVGCommand>)
    requires WholeGroups(xCmd)
    ensures GroupSize(xCmd.cmd) > 0 ==> GroupsRemain(xCmd, 0, subpath, subpath + Expanded(xCmd))
    ensures GroupSize(xCmd.cmd) == 0 ==> xCmd.numbers == [] && subpath + [] == subpath
  {
    assert xCmd.numbers[0..] == xCmd.numbers;
  }

  lemma GroupsEnd(xCmd: SVGCommand, n: nat, subpath: seq<SVGCommand>, goal: seq<SVGCommand>)
    requires GroupSize(xCmd.cmd) > 0 && GroupsRemain(xCmd, n, subpath, goal) && n >= |xCmd.numbers|
    ensures subpath == goal
  {
    assert xCmd.numbers[n..] == [] && subpath + [] == subpath;
  }

  method ExpandCommands(subpaths: seq<seq<SVGCommand>>, path0: seq<seq<SVGCommand>>)
    returns (path: seq<seq<SVGCommand>>)
    requires forall i :: 0 <= i < |subpaths| ==> AllWhole(subpaths[i])
    ensures |path| == |path0| + |subpaths| && path0 <= path
    ensures forall i :: 0 <= i < |subpaths| ==> path[|path0| + i] == ExpandedAll(subpaths[i])
  {
    path := path0;
    var i := 0;
    while i < |subpaths|
      invariant 0 <= i <= |subpaths| && |path| == |path0| + i && path0 <= path
      invariant forall k :: 0 <= k < i ==> path[|path0| + k] == ExpandedAll(subpaths[k])
    {
      var subpath := ExpandSubpath(subpaths[i]);
      path := path + [subpath];
      i := i + 1;
    }
  }

  method ExpandSubpath(compressed: seq<SVGCommand>) returns (subpath: seq<SVGCommand>)
    requires AllWhole(compressed)
    ensures subpath == ExpandedAll(compressed)
  {
    subpath := [];
    var j := 0;
    while j < |compressed|
      invariant 0 <= j <= |compressed| && AllWhole(compressed[..j])
      invariant subpath == ExpandedAll(compressed[..j])
    {
      assert compressed[..j + 1][..j] == compressed[..j];
      subpath := ExpandCommand(compressed[j], subpath);
      j := j + 1;
    }
    assert compressed[..j] == compressed;
  }

  // ----- drawing -----

  /** What one group of numbers draws from a point: the points it adds and where it ends. */
  type Stroke = (char, seq<real>, Vec2) -> (seq<Vec2>, Vec2)

  datatype Pen = Pen(last: Vec2, polyline: seq<Vec2>)

  /** a.Distance(b) > 1e-5 */
  predicate IsFar(a: Vec2, b: Vec2) {
    DistanceSquared(a, b) > 0.0000000001
  }

  /** The first point again, unless the polyline already ends near it. */
  function Closed(line: seq<Vec2>): seq<Vec2> {
    if line != [] && IsFar(line[|line| - 1], line[0]) then line + [line[0]] else line
  }

  /** The case of 'a' has no break and runs into the one that closes the path. */
  predicate Closes(c: char) {
    c == 'a' || ToLower(c) == 'z'
  }

  function Strokes(f: Stroke, c: char, numbers: seq<real>, pen: Pen): Pen
    requires GroupSize(c) > 0 && AreGroups(|numbers|, GroupSize(c))
    decreases |numbers|
  {
    if numbers == [] then pen
    else
      var n := GroupSize(c);
      var (points, last) := f(c, numbers[..n], pen.last);
      Strokes(f, c, numbers[n..], Pen(last, pen.polyline + points))
  }

  function DrawnCommand(f: Stroke, c: SVGCommand, pen: Pen): Pen
    requires WholeGroups(c)
  {
    var p := if GroupSize(c.cmd) > 0 then Strokes(f, c.cmd, c.numbers, pen) else pen;
    if Closes(c.cmd) then p.(polyline := Closed(p.polyline)) else p
  }

  function Drawn(f: Stroke, s: seq<SVGCommand>, pen: Pen): Pen
    requires AllWhole(s)
  {
    if s == [] then pen else DrawnCommand(f, s[|s| - 1], Drawn(f, s[..|s| - 1], pen))
  }
}
