/**
  The build half of the make clone (parseTargetFile.c): the post-order walk
  `POT` over the dependency graph, the command runner `praseCMDS`, and the
  entry point `parseTargetFileData`. `stat` becomes a lookup in a map from file
  names to modification times, and `system` an oracle that reports success and
  may change that map.
*/
module BuildPlanner {
  import opened Wrappers
  import opened DependencyGraph
  import RuleParser

  /** What `stat` sees: the modification time of every existing file. */
  type FileSystem = map<string, int>

  /** What one `system(cmd)` call does: whether it exited with status 0, and the files afterwards. */
  datatype RunResult = RunResult(success: bool, fs: FileSystem)

  /** The shell behind `system`; nothing about it is assumed. */
  type Runner = (string, FileSystem) -> RunResult

  /** The fatal conditions of the build, each an `exit(1)` in the C code. */
  datatype BuildError =
    | StatFailed(name: string)
    | NoFileNoDeps(name: string)
    | CommandFailed(cmd: string)
    | TargetNotFound(name: string)

  /**
    Everything the walk reads and writes: the node list, the files, the global
    `CMDSused`, the command lines echoed to stdout, and the nodes whose command
    lists were run, in order.
  */
  datatype BuildState = BuildState(
    nodes: seq<Node>,
    fs: FileSystem,
    cmdsUsed: nat,
    echoed: seq<string>,
    built: seq<nat>)

  /** A method's outcome and final state, read as a result of the specification. */
  function Done(r: Outcome<BuildError>, st: BuildState): Result<BuildState, BuildError> {
    if r.Pass? then Ok(st) else Err(r.error)
  }

  // ---------------------------------------------------------------------
  // praseCMDS

  /** The non-empty lines of `cmds`, in order. */
  function NonEmpty(cmds: seq<string>): seq<string>
    decreases |cmds|
  {
    if cmds == [] then []
    else (if cmds[0] != [] then [cmds[0]] else []) + NonEmpty(cmds[1..])
  }

  /**
    praseCMDS on the list `cmds`: every non-empty line is run; a failing one
    stops the build, a successful one is echoed and counted.
  */
  function RunCmds(run: Runner, st: BuildState, cmds: seq<string>): (r: Result<BuildState, BuildError>)
    ensures r.Ok? ==> r.value.nodes == st.nodes && r.value.built == st.built
    ensures r.Ok? ==> st.echoed <= r.value.echoed && r.value.cmdsUsed == st.cmdsUsed + (|r.value.echoed| - |st.echoed|)
    ensures r.Err? ==> r.error.CommandFailed?
    decreases |cmds|
  {
    if cmds == [] then Ok(st)
    else if cmds[0] == [] then RunCmds(run, st, cmds[1..])
    else
      var res := run(cmds[0], st.fs);
      if !res.success then Err(CommandFailed(cmds[0]))
      else RunCmds(run, st.(fs := res.fs, cmdsUsed := st.cmdsUsed + 1, echoed := st.echoed + [cmds[0]]), cmds[1..])
  }

  /** A run that gets through the list echoes its non-empty lines in order and counts each one. */
  lemma {:induction false} RunCmdsEchoes(run: Runner, st: BuildState, cmds: seq<string>)
    requires RunCmds(run, st, cmds).Ok?
    ensures RunCmds(run, st, cmds).value.echoed == st.echoed + NonEmpty(cmds)
    ensures RunCmds(run, st, cmds).value.cmdsUsed == st.cmdsUsed + |NonEmpty(cmds)|
    decreases |cmds|
  {
    if cmds != [] {
      if cmds[0] == [] {
        RunCmdsEchoes(run, st, cmds[1..]);
      } else {
        var res := run(cmds[0], st.fs);
        var st1 := st.(fs := res.fs, cmdsUsed := st.cmdsUsed + 1, echoed := st.echoed + [cmds[0]]);
        RunCmdsEchoes(run, st1, cmds[1..]);
        assert st1.echoed + NonEmpty(cmds[1..]) == st.echoed + ([cmds[0]] + NonEmpty(cmds[1..]));
      }
    }
  }

  /**
    A run that stops does so at the first non-empty line the shell fails on:
    every line before it went through, from the same starting state.
  */
  lemma {:induction false} RunCmdsStops(run: Runner, st: BuildState, cmds: seq<string>) returns (i: nat)
    requires RunCmds(run, st, cmds).Err?
    ensures i < |cmds| && cmds[i] != []
    ensures RunCmds(run, st, cmds[..i]).Ok?
    ensures !run(cmds[i], RunCmds(run, st, cmds[..i]).value.fs).success
    ensures RunCmds(run, st, cmds).error == CommandFailed(cmds[i])
    decreases |cmds|
  {
    if cmds[0] == [] {
      var j := RunCmdsStops(run, st, cmds[1..]);
      i := j + 1;
      assert cmds[..i][1..] == cmds[1..][..j];
    } else {
      var res := run(cmds[0], st.fs);
      if !res.success {
        i := 0;
        assert cmds[..0] == [];
      } else {
        var st1 := st.(fs := res.fs, cmdsUsed := st.cmdsUsed + 1, echoed := st.echoed + [cmds[0]]);
        var j := RunCmdsStops(run, st1, cmds[1..]);
        i := j + 1;
        assert cmds[..i][1..] == cmds[1..][..j];
      }
    }
  }

  // ---------------------------------------------------------------------
  // POT

  /** The number of nodes not yet visited: the walk's measure. */
  function Unvisited(ns: seq<Node>): nat
    decreases |ns|
  {
    if ns == [] then 0 else (if ns[0].visited then 0 else 1) + Unvisited(ns[1..])
  }

  /** Visited marks are never lost. */
  predicate VisitsKept(a: seq<Node>, b: seq<Node>) {
    |a| == |b| && forall k :: 0 <= k < |a| && a[k].visited ==> b[k].visited
  }

  lemma {:induction false} UnvisitedMono(a: seq<Node>, b: seq<Node>)
    requires VisitsKept(a, b)
    ensures Unvisited(b) <= Unvisited(a)
    decreases |a|
  {
    if a != [] {
      UnvisitedMono(a[1..], b[1..]);
    }
  }

  lemma {:induction false} UnvisitedMark(a: seq<Node>, b: seq<Node>, n: nat)
    requires VisitsKept(a, b) && n < |a| && !a[n].visited && b[n].visited
    ensures Unvisited(b) < Unvisited(a)
    decreases |a|
  {
    if n == 0 {
      UnvisitedMono(a[1..], b[1..]);
    } else {
      UnvisitedMark(a[1..], b[1..], n - 1);
    }
  }

  /** What the walk may change in the node list: flags and dates only; visited marks stay. */
  predicate Keeps(a: seq<Node>, b: seq<Node>) {
    && VisitsKept(a, b)
    && forall k :: 0 <= k < |a| ==>
      b[k].name == a[k].name && b[k].cmds == a[k].cmds && b[k].children == a[k].children && b[k].target == a[k].target
  }

  /** Nodes visited in `a`, except `n`, are untouched in `b`. */
  predicate Frozen(a: seq<Node>, b: seq<Node>, n: int)
    requires |a| == |b|
  {
    forall k :: 0 <= k < |a| && k != n && a[k].visited ==> b[k] == a[k]
  }

  /** The echo and `CMDSused` grow together, and the build log only grows. */
  predicate Counted(a: BuildState, b: BuildState) {
    a.echoed <= b.echoed && b.cmdsUsed == a.cmdsUsed + (|b.echoed| - |a.echoed|) && a.built <= b.built
  }

  /** How one stretch of the walk may change the state, when only node `n` of the visited ones may change. */
  predicate Grows(a: BuildState, b: BuildState, n: int) {
    Keeps(a.nodes, b.nodes) && Frozen(a.nodes, b.nodes, n) && Counted(a, b)
  }

  /** `y` is `x` with at most `mustBuild` set. */
  predicate OnlyMustBuild(x: Node, y: Node) {
    y == x.(mustBuild := y.mustBuild) && (x.mustBuild ==> y.mustBuild)
  }

  lemma GrowsTrans(a: BuildState, b: BuildState, c: BuildState, n: int)
    requires Grows(a, b, n) && Grows(b, c, n)
    ensures Grows(a, c, n)
  {
    assert a.echoed <= c.echoed;
  }

  lemma GrowsWiden(a: BuildState, b: BuildState, n: nat)
    requires Grows(a, b, n) && n < |a.nodes| && !a.nodes[n].visited
    ensures Grows(a, b, -1)
  {
  }

  lemma GrowsNarrow(a: BuildState, b: BuildState, n: nat)
    requires Grows(a, b, -1)
    ensures Grows(a, b, n)
  {
  }

  /** Rewriting the flags and date of one node, keeping its visited mark, is a step the walk may take. */
  lemma SetNodeGrows(a: BuildState, n: nat, node: Node)
    requires n < |a.nodes|
    requires node.name == a.nodes[n].name && node.cmds == a.nodes[n].cmds
    requires node.children == a.nodes[n].children && node.target == a.nodes[n].target
    requires a.nodes[n].visited ==> node.visited
    ensures Grows(a, a.(nodes := a.nodes[n := node]), n)
  {
  }

  /** Recording node `n` in the build log is a step the walk may take. */
  lemma LogGrows(a: BuildState, n: nat)
    ensures Grows(a, a.(built := a.built + [n]), n)
  {
  }

  /** A child marked visited but not completed is still on the walk's stack: the edge closes a cycle. */
  predicate InCycle(child: Node) {
    child.visited && !child.completed
  }

  /** A child forces a rebuild when it is missing or strictly newer. */
  predicate Stale(node: Node, child: Node) {
    !child.doesExist || child.fileDate > node.fileDate
  }

  /** The test after `POT(child)`: a cycle edge is skipped; otherwise a stale child sets `mustBuild`. */
  function Consider(node: Node, child: Node): (r: Node)
    ensures r == node.(mustBuild := r.mustBuild)
    ensures r.mustBuild <==> node.mustBuild || (!InCycle(child) && Stale(node, child))
  {
    if InCycle(child) then node
    else if !node.mustBuild && Stale(node, child) then node.(mustBuild := true)
    else node
  }

  /** The first `stat` of POT, then the check that a missing file has something to build it from. */
  function Probe(st: BuildState, n: nat): (r: Result<BuildState, BuildError>)
    requires n < |st.nodes|
    ensures r.Ok? ==> r.value == st.(nodes := r.value.nodes) && Grows(st, r.value, n)
    ensures r.Ok? ==> r.value.nodes[n].visited == st.nodes[n].visited && r.value.nodes[n].completed == st.nodes[n].completed
    ensures r.Err? ==> r.error.StatFailed? || r.error.NoFileNoDeps?
  {
    var node := st.nodes[n];
    if node.name in st.fs then
      Ok(st.(nodes := st.nodes[n := node.(fileDate := st.fs[node.name], doesExist := true)]))
    else if !node.target then Err(StatFailed(node.name))
    else if !node.doesExist && node.children == [] then Err(NoFileNoDeps(node.name))
    else Ok(st.(nodes := st.nodes[n := node.(mustBuild := true)]))
  }

  /** The second `stat`, after the commands: a missing file is fatal only for a non-target. */
  function Reprobe(st: BuildState, n: nat): (r: Result<BuildState, BuildError>)
    requires n < |st.nodes|
    ensures r.Ok? ==> r.value == st.(nodes := r.value.nodes) && Grows(st, r.value, n)
    ensures r.Ok? ==> r.value.nodes[n].visited == st.nodes[n].visited && r.value.nodes[n].mustBuild == st.nodes[n].mustBuild
    ensures r.Err? ==> r.error.StatFailed?
  {
    var node := st.nodes[n];
    if node.name in st.fs then
      Ok(st.(nodes := st.nodes[n := node.(fileDate := st.fs[node.name], doesExist := true)]))
    else if !node.target then Err(StatFailed(node.name))
    else Ok(st)
  }

  /** The end of POT: a node marked `mustBuild` has its commands run and is probed again; then it is completed. */
  function Finish(run: Runner, st: BuildState, n: nat): (r: Result<BuildState, BuildError>)
    requires n < |st.nodes|
    ensures r.Ok? ==> Grows(st, r.value, n)
    ensures r.Err? ==> !r.error.TargetNotFound?
  {
    var done := st.nodes[n].(completed := true);
    if !st.nodes[n].mustBuild then
      SetNodeGrows(st, n, done);
      Ok(st.(nodes := st.nodes[n := done]))
    else
      var st0 := st.(built := st.built + [n]);
      match RunCmds(run, st0, st.nodes[n].cmds)
      case Err(e) => Err(e)
      case Ok(st1) =>
        match Reprobe(st1, n)
        case Err(e) => Err(e)
        case Ok(st2) =>
          var st3 := st2.(nodes := st2.nodes[n := st2.nodes[n].(completed := true)]);
          LogGrows(st, n);
          SetNodeGrows(st2, n, st2.nodes[n].(completed := true));
          GrowsTrans(st, st0, st1, n);
          GrowsTrans(st, st1, st2, n);
          GrowsTrans(st, st2, st3, n);
          Ok(st3)
  }

  /**
    POT(n): a node already visited is left alone; otherwise it is marked, probed,
    its children are walked in order, and it is finished.
  */
  function Visit(run: Runner, st: BuildState, n: nat): (r: Result<BuildState, BuildError>)
    requires EdgesIn(st.nodes) && n < |st.nodes|
    ensures r.Ok? ==> Grows(st, r.value, -1)
    ensures r.Err? ==> !r.error.TargetNotFound?
    decreases Unvisited(st.nodes), 0, 0
  {
    if st.nodes[n].visited then Ok(st)
    else
      var st0 := st.(nodes := st.nodes[n := st.nodes[n].(visited := true)]);
      match Probe(st0, n)
      case Err(e) => Err(e)
      case Ok(st1) =>
        SetNodeGrows(st, n, st.nodes[n].(visited := true));
        GrowsTrans(st, st0, st1, n);
        UnvisitedMark(st.nodes, st1.nodes, n);
        match VisitChildren(run, st1, n, st1.nodes[n].children)
        case Err(e) => Err(e)
        case Ok(st2) =>
          GrowsTrans(st, st1, st2, n);
          var r := Finish(run, st2, n);
          if r.Ok? then
            GrowsTrans(st, st2, r.value, n);
            GrowsWiden(st, r.value, n);
            r
          else r
  }

  /** The loop of POT over the children `ch` of node `n`, which is already marked visited. */
  function VisitChildren(run: Runner, st: BuildState, n: nat, ch: seq<nat>): (r: Result<BuildState, BuildError>)
    requires EdgesIn(st.nodes) && n < |st.nodes| && st.nodes[n].visited
    requires forall i :: 0 <= i < |ch| ==> ch[i] < |st.nodes|
    ensures r.Ok? ==> Grows(st, r.value, n) && OnlyMustBuild(st.nodes[n], r.value.nodes[n])
    ensures r.Err? ==> !r.error.TargetNotFound?
    decreases Unvisited(st.nodes), 1, |ch|
  {
    if ch == [] then Ok(st)
    else
      match Visit(run, st, ch[0])
      case Err(e) => Err(e)
      case Ok(st1) =>
        GrowsNarrow(st, st1, n);
        var st2 := st1.(nodes := st1.nodes[n := Consider(st1.nodes[n], st1.nodes[ch[0]])]);
        SetNodeGrows(st1, n, Consider(st1.nodes[n], st1.nodes[ch[0]]));
        GrowsTrans(st, st1, st2, n);
        UnvisitedMono(st.nodes, st2.nodes);
        var r := VisitChildren(run, st2, n, ch[1..]);
        if r.Ok? then
          GrowsTrans(st, st2, r.value, n);
          r
        else r
  }

  // ---------------------------------------------------------------------
  // Properties of the walk

  /** POT returns at once on a node already visited, changing nothing. */
  lemma VisitSkipsVisited(run: Runner, st: BuildState, n: nat)
    requires EdgesIn(st.nodes) && n < |st.nodes| && st.nodes[n].visited
    ensures Visit(run, st, n) == Ok(st)
  {
  }

  /** A walk from an unvisited node that returns leaves it visited and completed. */
  lemma VisitCompletes(run: Runner, st: BuildState, n: nat)
    requires EdgesIn(st.nodes) && n < |st.nodes| && !st.nodes[n].visited
    requires Visit(run, st, n).Ok?
    ensures Visit(run, st, n).value.nodes[n].visited && Visit(run, st, n).value.nodes[n].completed
  {
    var st0 := st.(nodes := st.nodes[n := st.nodes[n].(visited := true)]);
    var st1 := Probe(st0, n).value;
    var st2 := VisitChildren(run, st1, n, st1.nodes[n].children).value;
    FinishCompletes(run, st2, n);
  }

  /** A walk that returns leaves its node visited, whether or not it was visited at the call. */
  lemma VisitMarks(run: Runner, st: BuildState, c: nat)
    requires EdgesIn(st.nodes) && c < |st.nodes| && Visit(run, st, c).Ok?
    ensures Visit(run, st, c).value.nodes[c].visited
  {
    if !st.nodes[c].visited {
      VisitCompletes(run, st, c);
    }
  }

  /**
    The loop over the edges of `n` as a whole: every child is walked, and
    `mustBuild` ends set exactly when it was set already or some child off the
    cycle is missing or strictly newer than `n`, as the child stands after
    the loop.
  */
  lemma {:induction false} ChildrenDecide(run: Runner, st: BuildState, n: nat, ch: seq<nat>)
    requires EdgesIn(st.nodes) && n < |st.nodes| && st.nodes[n].visited
    requires forall i :: 0 <= i < |ch| ==> ch[i] < |st.nodes|
    requires VisitChildren(run, st, n, ch).Ok?
    ensures var r := VisitChildren(run, st, n, ch).value;
      forall c :: c in ch ==> r.nodes[c].visited
    ensures var r := VisitChildren(run, st, n, ch).value;
      r.nodes[n].mustBuild <==>
        st.nodes[n].mustBuild || exists c :: c in ch && !InCycle(r.nodes[c]) && Stale(st.nodes[n], r.nodes[c])
    decreases |ch|
  {
    var r := VisitChildren(run, st, n, ch).value;
    if ch != [] {
      var c := ch[0];
      var st1 := Visit(run, st, c).value;
      VisitMarks(run, st, c);
      GrowsNarrow(st, st1, n);
      assert st1.nodes[n] == st.nodes[n];
      var nd := Consider(st1.nodes[n], st1.nodes[c]);
      var st2 := st1.(nodes := st1.nodes[n := nd]);
      SetNodeGrows(st1, n, nd);
      GrowsTrans(st, st1, st2, n);
      assert EdgesIn(st2.nodes);
      assert r == VisitChildren(run, st2, n, ch[1..]).value;
      ChildrenDecide(run, st2, n, ch[1..]);
      assert r.nodes[n] == st2.nodes[n].(mustBuild := r.nodes[n].mustBuild);
      assert !InCycle(r.nodes[c]) && Stale(st.nodes[n], r.nodes[c]) <==>
        !InCycle(st1.nodes[c]) && Stale(st.nodes[n], st1.nodes[c]);
      assert forall x :: x in ch <==> x == c || x in ch[1..];
      forall x | x in ch[1..]
        ensures Stale(st2.nodes[n], r.nodes[x]) == Stale(st.nodes[n], r.nodes[x])
      {
      }
    }
  }

  /**
    POT's rebuild decision for a node it marks: every child has been walked,
    and `mustBuild` is set exactly when it was set before, the node's own file
    is missing, or some child off the cycle is missing or strictly newer than
    the date the first `stat` gave.
  */
  lemma VisitDecides(run: Runner, st: BuildState, n: nat)
    requires EdgesIn(st.nodes) && n < |st.nodes| && !st.nodes[n].visited && Visit(run, st, n).Ok?
    ensures var r := Visit(run, st, n).value;
      forall c :: c in st.nodes[n].children ==> r.nodes[c].visited
    ensures var r := Visit(run, st, n).value;
      var node := st.nodes[n];
      var date := if node.name in st.fs then st.fs[node.name] else node.fileDate;
      r.nodes[n].mustBuild <==>
        || node.mustBuild || node.name !in st.fs
        || exists c :: c in node.children && c != n && !InCycle(r.nodes[c]) && Stale(node.(fileDate := date), r.nodes[c])
  {
    var r := Visit(run, st, n).value;
    var node := st.nodes[n];
    var st0 := st.(nodes := st.nodes[n := node.(visited := true)]);
    var st1 := Probe(st0, n).value;
    var ch := st1.nodes[n].children;
    var st2 := VisitChildren(run, st1, n, ch).value;
    assert ch == node.children;
    ChildrenDecide(run, st1, n, ch);
    assert r == Finish(run, st2, n).value;
    FinishDecision(run, st2, n, ch);
    var date := if node.name in st.fs then st.fs[node.name] else node.fileDate;
    assert st1.nodes[n].mustBuild <==> node.mustBuild || node.name !in st.fs;
    assert st1.nodes[n].fileDate == date;
    assert st2.nodes[n] == st1.nodes[n].(mustBuild := st2.nodes[n].mustBuild);
  }

  /** The end of POT leaves the walked children as they were and the decision as it was taken. */
  lemma FinishDecision(run: Runner, st: BuildState, n: nat, ch: seq<nat>)
    requires n < |st.nodes| && Finish(run, st, n).Ok?
    requires forall c :: c in ch ==> c < |st.nodes| && st.nodes[c].visited
    ensures var r := Finish(run, st, n).value;
      && r.nodes[n].mustBuild == st.nodes[n].mustBuild
      && forall c :: c in ch ==> r.nodes[c].visited && (c != n ==> r.nodes[c] == st.nodes[c])
  {
    FinishCompletes(run, st, n);
  }

  /** Finish completes the node and leaves its `mustBuild`; when that is set, the node was probed after its commands and logged last. */
  lemma FinishCompletes(run: Runner, st: BuildState, n: nat)
    requires n < |st.nodes| && Finish(run, st, n).Ok?
    ensures var r := Finish(run, st, n).value;
      r.nodes[n] == st.nodes[n].(completed := true, fileDate := r.nodes[n].fileDate, doesExist := r.nodes[n].doesExist)
    ensures var r := Finish(run, st, n).value;
      r.nodes[n].mustBuild ==>
        && (st.nodes[n].name in r.fs ==> r.nodes[n].doesExist && r.nodes[n].fileDate == r.fs[st.nodes[n].name])
        && (st.nodes[n].name !in r.fs ==> st.nodes[n].target)
        && r.built == st.built + [n]
    ensures var r := Finish(run, st, n).value;
      !r.nodes[n].mustBuild ==> r == st.(nodes := st.nodes[n := st.nodes[n].(completed := true)])
  {
  }

  /**
    The missing-file rules of POT: a missing file is fatal for a node that is
    not a declared target, and for a target with nothing to build it from;
    otherwise the node must be built.
  */
  lemma VisitMissing(run: Runner, st: BuildState, n: nat)
    requires EdgesIn(st.nodes) && n < |st.nodes| && !st.nodes[n].visited
    requires st.nodes[n].name !in st.fs
    ensures !st.nodes[n].target ==> Visit(run, st, n) == Err(StatFailed(st.nodes[n].name))
    ensures st.nodes[n].target && !st.nodes[n].doesExist && st.nodes[n].children == [] ==>
      Visit(run, st, n) == Err(NoFileNoDeps(st.nodes[n].name))
    ensures Visit(run, st, n).Ok? ==> Visit(run, st, n).value.nodes[n].mustBuild
  {
    if Visit(run, st, n).Ok? {
      var st0 := st.(nodes := st.nodes[n := st.nodes[n].(visited := true)]);
      var st1 := Probe(st0, n).value;
      var st2 := VisitChildren(run, st1, n, st1.nodes[n].children).value;
      assert st1.nodes[n].mustBuild;
      FinishCompletes(run, st2, n);
    }
  }

  /**
    A node marked `mustBuild` by the walk from it (or before) had its command
    list run exactly then, and what is recorded of its file is what `stat` says
    after that: it exists with that date, or else it is a declared target.
  */
  lemma VisitReprobes(run: Runner, st: BuildState, n: nat)
    requires EdgesIn(st.nodes) && n < |st.nodes| && !st.nodes[n].visited
    requires Visit(run, st, n).Ok? && Visit(run, st, n).value.nodes[n].mustBuild
    ensures var r := Visit(run, st, n).value;
      && (st.nodes[n].name in r.fs ==> r.nodes[n].doesExist && r.nodes[n].fileDate == r.fs[st.nodes[n].name])
      && (st.nodes[n].name !in r.fs ==> st.nodes[n].target)
      && r.built != [] && r.built[|r.built| - 1] == n
  {
    var st0 := st.(nodes := st.nodes[n := st.nodes[n].(visited := true)]);
    var st1 := Probe(st0, n).value;
    var st2 := VisitChildren(run, st1, n, st1.nodes[n].children).value;
    FinishCompletes(run, st2, n);
  }

  /** Equal dates never force a rebuild: only a missing or strictly newer child does. */
  lemma EqualDatesKeep(node: Node, child: Node)
    requires child.doesExist && child.fileDate <= node.fileDate
    ensures Consider(node, child).mustBuild == node.mustBuild
  {
  }

  /**
    The state of a walk in progress: each node's commands were run at most once
    (the log has no repeats), only for completed nodes, and only visited nodes
    are completed.
  */
  predicate OnceEach(st: BuildState) {
    && NoDup(st.built)
    && (forall i :: 0 <= i < |st.built| ==> st.built[i] < |st.nodes| && st.nodes[st.built[i]].completed)
    && (forall k :: 0 <= k < |st.nodes| && st.nodes[k].completed ==> st.nodes[k].visited)
  }

  /** No node's commands run twice in one traversal. */
  lemma {:induction false} VisitOnceEach(run: Runner, st: BuildState, n: nat)
    requires EdgesIn(st.nodes) && n < |st.nodes| && OnceEach(st)
    requires Visit(run, st, n).Ok?
    ensures OnceEach(Visit(run, st, n).value)
    decreases Unvisited(st.nodes), 0, 0
  {
    if !st.nodes[n].visited {
      var st0 := st.(nodes := st.nodes[n := st.nodes[n].(visited := true)]);
      var st1 := Probe(st0, n).value;
      ProbeOnceEach(st, st0, n);
      UnvisitedMark(st.nodes, st1.nodes, n);
      var st2 := VisitChildren(run, st1, n, st1.nodes[n].children).value;
      ChildrenOnceEach(run, st1, n, st1.nodes[n].children);
      assert !st2.nodes[n].completed;
      assert n !in st2.built;
      FinishOnceEach(run, st2, n);
    }
  }

  /** Marking a node visited and probing it completes nothing. */
  lemma ProbeOnceEach(st: BuildState, st0: BuildState, n: nat)
    requires n < |st.nodes| && OnceEach(st) && !st.nodes[n].visited
    requires st0 == st.(nodes := st.nodes[n := st.nodes[n].(visited := true)])
    requires Probe(st0, n).Ok?
    ensures OnceEach(Probe(st0, n).value)
  {
    var st1 := Probe(st0, n).value;
    assert forall k :: 0 <= k < |st.nodes| ==> st1.nodes[k].completed == st.nodes[k].completed;
  }

  lemma FinishOnceEach(run: Runner, st: BuildState, n: nat)
    requires n < |st.nodes| && OnceEach(st) && st.nodes[n].visited && n !in st.built
    requires Finish(run, st, n).Ok?
    ensures OnceEach(Finish(run, st, n).value)
  {
    var r := Finish(run, st, n).value;
    FinishCompletes(run, st, n);
    assert forall k :: 0 <= k < |st.nodes| && k != n ==> r.nodes[k] == st.nodes[k];
    if r.nodes[n].mustBuild {
      assert r.built == st.built + [n];
      forall i, j | 0 <= i < j < |r.built| ensures r.built[i] != r.built[j] {
        if j == |st.built| {
          assert r.built[i] == st.built[i];
        } else {
          assert r.built[i] == st.built[i] && r.built[j] == st.built[j];
        }
      }
    }
  }

  /** Weighing a child against its parent completes nothing. */
  lemma ConsiderOnceEach(st: BuildState, st1: BuildState, n: nat, c: nat)
    requires n < |st.nodes| && c < |st.nodes| && OnceEach(st)
    requires st1 == st.(nodes := st.nodes[n := Consider(st.nodes[n], st.nodes[c])])
    ensures OnceEach(st1)
  {
    assert forall k :: 0 <= k < |st.nodes| ==> st1.nodes[k].completed == st.nodes[k].completed;
  }

  lemma {:induction false} ChildrenOnceEach(run: Runner, st: BuildState, n: nat, ch: seq<nat>)
    requires EdgesIn(st.nodes) && n < |st.nodes| && st.nodes[n].visited
    requires forall i :: 0 <= i < |ch| ==> ch[i] < |st.nodes|
    requires OnceEach(st) && VisitChildren(run, st, n, ch).Ok?
    ensures OnceEach(VisitChildren(run, st, n, ch).value)
    decreases Unvisited(st.nodes), 1, |ch|
  {
    if ch != [] {
      var st1 := Visit(run, st, ch[0]).value;
      VisitOnceEach(run, st, ch[0]);
      var st2 := st1.(nodes := st1.nodes[n := Consider(st1.nodes[n], st1.nodes[ch[0]])]);
      ConsiderOnceEach(st1, st2, n, ch[0]);
      UnvisitedMono(st.nodes, st2.nodes);
      ChildrenOnceEach(run, st2, n, ch[1..]);
    }
  }

  // ---------------------------------------------------------------------
  // resetVisited and parseTargetFileData

  /** resetVisited on a node list: every visited mark is cleared and nothing else changes. */
  function ResetAll(ns: seq<Node>): (r: seq<Node>)
    ensures |r| == |ns| && forall k :: 0 <= k < |ns| ==> r[k] == ns[k].(visited := false)
    decreases |ns|
  {
    if ns == [] then [] else [ns[0].(visited := false)] + ResetAll(ns[1..])
  }

  /** parseTargetFileData: the named target must be in the graph; the walk from it, then resetVisited. */
  function Make(run: Runner, st: BuildState, name: string): (r: Result<BuildState, BuildError>)
    requires EdgesIn(st.nodes)
    ensures r.Ok? ==> |r.value.nodes| == |st.nodes| && Counted(st, r.value)
    ensures r.Ok? ==> forall k :: 0 <= k < |st.nodes| ==>
      && !r.value.nodes[k].visited && r.value.nodes[k].name == st.nodes[k].name
      && r.value.nodes[k].cmds == st.nodes[k].cmds && r.value.nodes[k].children == st.nodes[k].children
  {
    match Find(st.nodes, name)
    case None => Err(TargetNotFound(name))
    case Some(t) =>
      match Visit(run, st, t)
      case Err(e) => Err(e)
      case Ok(st1) => Ok(st1.(nodes := ResetAll(st1.nodes)))
  }

  /** The build stops with "target not found" exactly when no node has that name. */
  lemma MakeNotFound(run: Runner, st: BuildState, name: string)
    requires EdgesIn(st.nodes)
    ensures Make(run, st, name) == Err(TargetNotFound(name)) <==> Find(st.nodes, name).None?
  {
  }

  /**
    From a fresh start (`CMDSused` 0, nothing echoed), "up to date" is reported
    exactly when the build ran no command at all.
  */
  lemma MakeUpToDate(run: Runner, st: BuildState, name: string)
    requires EdgesIn(st.nodes) && st.cmdsUsed == 0 && st.echoed == []
    requires Make(run, st, name).Ok?
    ensures Make(run, st, name).value.cmdsUsed == 0 <==> Make(run, st, name).value.echoed == []
  {
  }

  /** The graph as parseMakeFileData leaves it: no node visited or completed, nothing built yet. */
  predicate Fresh(st: BuildState) {
    st.built == [] && forall k :: 0 <= k < |st.nodes| ==> !st.nodes[k].visited && !st.nodes[k].completed
  }

  /**
    A build from a fresh graph runs each node's command list at most once,
    completes the named target, and leaves every visited mark cleared.
  */
  lemma MakeFromFresh(run: Runner, st: BuildState, name: string)
    requires EdgesIn(st.nodes) && Fresh(st) && Make(run, st, name).Ok?
    ensures NoDup(Make(run, st, name).value.built)
    ensures Find(st.nodes, name).Some? && Make(run, st, name).value.nodes[Find(st.nodes, name).value].completed
    ensures forall k :: 0 <= k < |st.nodes| ==> !Make(run, st, name).value.nodes[k].visited
  {
    var t := Find(st.nodes, name).value;
    assert OnceEach(st);
    VisitOnceEach(run, st, t);
    VisitCompletes(run, st, t);
  }

  /** The graph parseMakeFileData returns is a fresh start for the build, whatever the files. */
  lemma ParsedGraphIsFresh(lines: seq<string>, fs: FileSystem)
    requires RuleParser.ParseMakeFile(lines).Ok?
    ensures EdgesIn(RuleParser.ParseMakeFile(lines).value)
    ensures Fresh(BuildState(RuleParser.ParseMakeFile(lines).value, fs, 0, [], []))
  {
    RuleParser.ParseMakeFileUnmarked(lines);
  }

  /** So the promises of MakeFromFresh hold of every build of a parsed rule file. */
  lemma MakeParsed(run: Runner, lines: seq<string>, fs: FileSystem, name: string)
    requires RuleParser.ParseMakeFile(lines).Ok?
    requires Make(run, BuildState(RuleParser.ParseMakeFile(lines).value, fs, 0, [], []), name).Ok?
    ensures var ns := RuleParser.ParseMakeFile(lines).value;
      var r := Make(run, BuildState(ns, fs, 0, [], []), name).value;
      && NoDup(r.built)
      && Find(ns, name).Some? && r.nodes[Find(ns, name).value].completed
      && forall k :: 0 <= k < |ns| ==> !r.nodes[k].visited
  {
    var ns := RuleParser.ParseMakeFile(lines).value;
    ParsedGraphIsFresh(lines, fs);
    MakeFromFresh(run, BuildState(ns, fs, 0, [], []), name);
  }

  /** One pass of the loop over a node's edges, as WalkChildren takes it: the loop invariant is kept. */
  lemma ChildStep(run: Runner, before: BuildState, mid: BuildState, after: BuildState, n: nat, ch: seq<nat>, i: nat)
    requires EdgesIn(before.nodes) && n < |before.nodes| && before.nodes[n].visited
    requires ch == before.nodes[n].children && i < |ch|
    requires Visit(run, before, ch[i]) == Ok(mid)
    requires after == mid.(nodes := mid.nodes[n := Consider(mid.nodes[n], mid.nodes[ch[i]])])
    ensures EdgesIn(after.nodes) && n < |after.nodes| && after.nodes[n].visited && ch == after.nodes[n].children
    ensures Grows(before, after, n) && Unvisited(after.nodes) <= Unvisited(before.nodes)
    ensures VisitChildren(run, after, n, ch[i + 1..]) == VisitChildren(run, before, n, ch[i..])
  {
    assert ch[i..][0] == ch[i] && ch[i..][1..] == ch[i + 1..];
    GrowsNarrow(before, mid, n);
    SetNodeGrows(mid, n, Consider(mid.nodes[n], mid.nodes[ch[i]]));
    GrowsTrans(before, mid, after, n);
    UnvisitedMono(before.nodes, after.nodes);
  }

  // ---------------------------------------------------------------------
  // The imperative code

  /**
    The state of parseTargetFile.c: the list `headLL` handed over by the rule
    parser, the files, the global `CMDSused`, and what was echoed. `built` is a
    log the proofs keep of the nodes whose commands were run.
  */
  class Build {
    const run: Runner
    var nodes: seq<Node>
    var fs: FileSystem
    var cmdsUsed: nat
    var echoed: seq<string>
    ghost var built: seq<nat>

    ghost function State(): BuildState
      reads this
    {
      BuildState(nodes, fs, cmdsUsed, echoed, built)
    }

    ghost predicate Valid()
      reads this
    {
      EdgesIn(nodes)
    }

    constructor (ns: seq<Node>, files: FileSystem, shell: Runner)
      requires EdgesIn(ns)
      ensures Valid() && State() == BuildState(ns, files, 0, [], []) && run == shell
    {
      run := shell;
      nodes := ns;
      fs := files;
      cmdsUsed := 0;
      echoed := [];
      built := [];
    }

    /** verifyTargetNode: the walk from the head that stops at the first node called `name`. */
    method VerifyTargetNode(name: string) returns (r: Option<nat>)
      ensures r == Find(nodes, name)
    {
      var i := 0;
      while i < |nodes|
        invariant i <= |nodes|
        invariant forall k :: 0 <= k < i ==> nodes[k].name != name
      {
        if nodes[i].name == name {
          FindFirst(nodes, name, i);
          return Some(i);
        }
        i := i + 1;
      }
      return None;
    }

    /** praseCMDS(node n): runs the node's non-empty command lines in order, echoing and counting each success. */
    method RunCommands(n: nat) returns (r: Outcome<BuildError>)
      requires n < |nodes|
      modifies this
      ensures nodes == old(nodes) && built == old(built)
      ensures RunCmds(run, old(State()), old(nodes[n].cmds)) == Done(r, State())
    {
      var cmds := nodes[n].cmds;
      for i := 0 to |cmds|
        invariant nodes == old(nodes) && built == old(built)
        invariant RunCmds(run, State(), cmds[i..]) == RunCmds(run, old(State()), cmds)
      {
        assert cmds[i..][0] == cmds[i] && cmds[i..][1..] == cmds[i + 1..];
        var line := cmds[i];
        if line != [] {
          var res := run(line, fs);
          if !res.success {
            return Fail(CommandFailed(line));
          }
          fs := res.fs;
          echoed := echoed + [line];
          cmdsUsed := cmdsUsed + 1;
        }
      }
      assert cmds[|cmds|..] == [];
      return Pass;
    }

    /** The first `stat` in POT and the missing-file check after it, on the fields of node `n`. */
    method StatFirst(n: nat) returns (r: Outcome<BuildError>)
      requires Valid() && n < |nodes|
      modifies this
      ensures Valid()
      ensures Probe(old(State()), n) == Done(r, State())
    {
      var node := nodes[n];
      if node.name in fs {
        node := node.(fileDate := fs[node.name], doesExist := true);
      } else if !node.target {
        return Fail(StatFailed(node.name));
      } else {
        node := node.(mustBuild := true);
      }
      if !node.doesExist {
        if node.children == [] {
          return Fail(NoFileNoDeps(node.name));
        }
        node := node.(mustBuild := true);
      }
      nodes := nodes[n := node];
      return Pass;
    }

    /** The end of POT: commands and the second `stat` for a node that must be built, then `completed`. */
    method FinishNode(n: nat) returns (r: Outcome<BuildError>)
      requires Valid() && n < |nodes|
      modifies this
      ensures Valid()
      ensures Finish(run, old(State()), n) == Done(r, State())
    {
      if nodes[n].mustBuild {
        built := built + [n];
        r := RunCommands(n);
        if r.Fail? {
          return;
        }
        var node := nodes[n];
        if node.name in fs {
          nodes := nodes[n := node.(fileDate := fs[node.name], doesExist := true)];
        } else if !node.target {
          return Fail(StatFailed(node.name));
        }
      }
      nodes := nodes[n := nodes[n].(completed := true)];
      return Pass;
    }

    /** POT(n): the post-order walk from node `n`. */
    method POT(n: nat) returns (r: Outcome<BuildError>)
      requires Valid() && n < |nodes|
      modifies this
      ensures Valid()
      ensures Visit(run, old(State()), n) == Done(r, State())
      decreases Unvisited(nodes), 0
    {
      if nodes[n].visited {
        return Pass;
      }
      ghost var st := State();
      nodes := nodes[n := nodes[n].(visited := true)];
      ghost var st0 := State();
      SetNodeGrows(st, n, st.nodes[n].(visited := true));
      r := StatFirst(n);
      if r.Fail? {
        return;
      }
      UnvisitedMark(st.nodes, nodes, n);
      r := WalkChildren(n);
      if r.Fail? {
        return;
      }
      r := FinishNode(n);
    }

    /** The loop of POT over the edges of node `n`: the walk from each child, then the cycle and staleness test. */
    method WalkChildren(n: nat) returns (r: Outcome<BuildError>)
      requires Valid() && n < |nodes| && nodes[n].visited
      modifies this
      ensures Valid()
      ensures VisitChildren(run, old(State()), n, old(nodes[n].children)) == Done(r, State())
      decreases Unvisited(nodes), 2
    {
      ghost var st1 := State();
      var ch := nodes[n].children;
      for i := 0 to |ch|
        invariant Valid() && n < |nodes| && nodes[n].visited && Grows(st1, State(), n)
        invariant ch == nodes[n].children
        invariant Unvisited(nodes) <= Unvisited(st1.nodes)
        invariant VisitChildren(run, State(), n, ch[i..]) == VisitChildren(run, st1, n, ch)
      {
        ghost var before := State();
        r := WalkChild(n, ch, i);
        if r.Fail? {
          return;
        }
        GrowsTrans(st1, before, State(), n);
      }
      assert ch[|ch|..] == [];
      return Pass;
    }

    /** One turn of that loop: POT on child `ch[i]`, then the test that may set `mustBuild` on `n`. */
    method WalkChild(n: nat, ch: seq<nat>, i: nat) returns (r: Outcome<BuildError>)
      requires Valid() && n < |nodes| && nodes[n].visited && ch == nodes[n].children && i < |ch|
      modifies this
      ensures Valid()
      ensures r.Fail? ==> VisitChildren(run, old(State()), n, ch[i..]) == Err(r.error)
      ensures r.Pass? ==> n < |nodes| && nodes[n].visited && ch == nodes[n].children
      ensures r.Pass? ==> Grows(old(State()), State(), n) && Unvisited(nodes) <= old(Unvisited(nodes))
      ensures r.Pass? ==> VisitChildren(run, State(), n, ch[i + 1..]) == VisitChildren(run, old(State()), n, ch[i..])
      decreases Unvisited(nodes), 1
    {
      ghost var before := State();
      assert ch[i..][0] == ch[i] && ch[i..][1..] == ch[i + 1..];
      r := POT(ch[i]);
      if r.Fail? {
        return;
      }
      ghost var mid := State();
      nodes := nodes[n := Consider(nodes[n], nodes[ch[i]])];
      ChildStep(run, before, mid, State(), n, ch, i);
    }

    /** resetVisited: clears every visited mark and nothing else. */
    method ResetVisited()
      requires Valid()
      modifies this
      ensures Valid()
      ensures nodes == ResetAll(old(nodes))
      ensures fs == old(fs) && cmdsUsed == old(cmdsUsed) && echoed == old(echoed) && built == old(built)
    {
      for i := 0 to |nodes|
        invariant |nodes| == |old(nodes)|
        invariant forall k :: 0 <= k < i ==> nodes[k] == old(nodes)[k].(visited := false)
        invariant forall k :: i <= k < |nodes| ==> nodes[k] == old(nodes)[k]
        invariant fs == old(fs) && cmdsUsed == old(cmdsUsed) && echoed == old(echoed) && built == old(built)
      {
        nodes := nodes[i := nodes[i].(visited := false)];
      }
      assert forall k :: 0 <= k < |nodes| ==> nodes[k].children == old(nodes)[k].children;
    }

    /**
      parseTargetFileData(name): finds the target, walks from it and clears the
      visited marks; "up to date" is reported when `CMDSused` is still 0.
    */
    method ParseTargetFileData(name: string) returns (r: Outcome<BuildError>, upToDate: bool)
      requires Valid()
      modifies this
      ensures Valid()
      ensures Make(run, old(State()), name) == Done(r, State())
      ensures r.Pass? ==> (upToDate <==> cmdsUsed == 0)
    {
      var t := VerifyTargetNode(name);
      if t.None? {
        return Fail(TargetNotFound(name)), false;
      }
      r := POT(t.value);
      if r.Fail? {
        return r, false;
      }
      ResetVisited();
      upToDate := cmdsUsed == 0;
    }
  }
}
