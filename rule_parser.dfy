/**
  The rule-file parser of parseMakeFile.c: `useActionLineAndAddNodes`, which
  turns one normalised target line into nodes and edges, and the line loop of
  `parseMakeFileData`, which classifies each input line and collects command
  lines for the rule read last.

  `DeclareLine`, `Step` and `ParseFrom` say what the C code computes; the
  methods `UseActionLineAndAddNodes` and `ParseMakeFileData` do it step by step
  on a `Graph` and are proved to agree with them.
*/
module RuleParser {
  import opened Wrappers
  import opened LineText
  import opened DependencyGraph
  import TargetLine

  /** The fatal format errors of the parser; the C code prints a message and exits. */
  datatype ParseError =
    | CommandBeforeTarget  // a tab line before any target line
    | ColonCount           // a target line without exactly one ':'
    | InvalidFormat        // sscanf found no target word
    | DuplicateTarget      // the target already has dependencies

  // ---------------------------------------------------------------------
  // One target line

  /** One dependency token of the rule for node `h`: find the node or append a new one, then add the edge. */
  function Link(ns: seq<Node>, h: nat, tok: string): (r: seq<Node>)
    requires h < |ns|
    ensures |ns| <= |r| <= |ns| + 1
  {
    match Find(ns, tok)
    case Some(d) => AddChild(ns, h, d)
    case None => AddChild(ns + [NewNode(tok, false)], h, |ns|)
  }

  /** The dependency loop of useActionLineAndAddNodes over the tokens `toks`. */
  function AddDeps(ns: seq<Node>, h: nat, toks: seq<string>): (r: seq<Node>)
    requires h < |ns|
    ensures |ns| <= |r|
    decreases |toks|
  {
    if toks == [] then ns else AddDeps(Link(ns, h, toks[0]), h, toks[1..])
  }

  /** The child list `ch` after adding each of `xs` in turn, skipping those already present. */
  function AppendNew(ch: seq<nat>, xs: seq<nat>): (r: seq<nat>)
    ensures ch <= r && |r| <= |ch| + |xs|
    decreases |xs|
  {
    if xs == [] then ch else AppendNew(if xs[0] in ch then ch else ch + [xs[0]], xs[1..])
  }

  /** The positions of the nodes called `toks`, in token order. */
  function Positions(ns: seq<Node>, toks: seq<string>): seq<nat>
    requires forall t :: t in toks ==> Find(ns, t).Some?
    decreases |toks|
  {
    if toks == [] then [] else [Find(ns, toks[0]).value] + Positions(ns, toks[1..])
  }

  /**
    useActionLineAndAddNodes on a line already passed through fixLine: the
    graph after the rule is added, and the position of its target node.
  */
  function DeclareLine(ns: seq<Node>, line: string): (r: Result<(seq<Node>, nat), ParseError>)
    ensures r.Ok? ==> |ns| <= |r.value.0| && r.value.1 < |r.value.0|
    ensures r.Err? ==> r.error == InvalidFormat || r.error == DuplicateTarget
  {
    var sc := ScanTargetLine(line);
    if sc.count > 2 || sc.count < 1 then Err(InvalidFormat)
    else if HasRule(ns, sc.target) then Err(DuplicateTarget)
    else match Find(ns, sc.target)
      case Some(h) => Ok((AddDeps(ns, h, Tokens(sc.rest)), h))
      case None => Ok((AddDeps(ns + [NewNode(sc.target, true)], |ns|, Tokens(sc.rest)), |ns|))
  }

  // ---------------------------------------------------------------------
  // Facts about one dependency and one rule

  /** One dependency keeps the graph well formed, touches only node `h`, and adds at most one new node. */
  lemma LinkFacts(ns: seq<Node>, h: nat, tok: string)
    requires h < |ns| && EdgesIn(ns)
    ensures EdgesIn(Link(ns, h, tok))
    ensures UniqueNames(ns) ==> UniqueNames(Link(ns, h, tok))
    ensures SimpleEdges(ns) ==> SimpleEdges(Link(ns, h, tok))
    ensures forall k :: 0 <= k < |ns| && k != h ==> Link(ns, h, tok)[k] == ns[k]
    ensures Link(ns, h, tok)[h] == ns[h].(children := Link(ns, h, tok)[h].children)
    ensures |Link(ns, h, tok)| == |ns| + 1 ==> Link(ns, h, tok)[|ns|] == NewNode(tok, false)
    ensures forall name :: Find(ns, name).Some? ==> Find(Link(ns, h, tok), name) == Find(ns, name)
    ensures Find(Link(ns, h, tok), tok).Some?
    ensures var p := Find(Link(ns, h, tok), tok).value;
      Link(ns, h, tok)[h].children == if p in ns[h].children then ns[h].children else ns[h].children + [p]
  {
    match Find(ns, tok)
    case Some(d) =>
      AddChildKeeps(ns, h, d);
    case None =>
      var ns1 := ns + [NewNode(tok, false)];
      AppendKeeps(ns, NewNode(tok, false));
      assert ns1[|ns|] == NewNode(tok, false);
      AddChildKeeps(ns1, h, |ns|);
  }

  /** The dependency loop keeps the graph well formed. */
  lemma {:induction false} AddDepsShape(ns: seq<Node>, h: nat, toks: seq<string>)
    requires h < |ns| && EdgesIn(ns)
    ensures EdgesIn(AddDeps(ns, h, toks))
    ensures UniqueNames(ns) ==> UniqueNames(AddDeps(ns, h, toks))
    ensures SimpleEdges(ns) ==> SimpleEdges(AddDeps(ns, h, toks))
    decreases |toks|
  {
    if toks != [] {
      LinkFacts(ns, h, toks[0]);
      AddDepsShape(Link(ns, h, toks[0]), h, toks[1..]);
    }
  }

  /** The dependency loop touches only node `h` and adds only plain dependency nodes named by tokens. */
  lemma {:induction false} AddDepsFrame(ns: seq<Node>, h: nat, toks: seq<string>)
    requires h < |ns| && EdgesIn(ns)
    ensures forall k :: 0 <= k < |ns| && k != h ==> AddDeps(ns, h, toks)[k] == ns[k]
    ensures AddDeps(ns, h, toks)[h] == ns[h].(children := AddDeps(ns, h, toks)[h].children)
    ensures forall k :: |ns| <= k < |AddDeps(ns, h, toks)| ==>
      AddDeps(ns, h, toks)[k] == NewNode(AddDeps(ns, h, toks)[k].name, false) && AddDeps(ns, h, toks)[k].name in toks
    decreases |toks|
  {
    if toks != [] {
      var l := Link(ns, h, toks[0]);
      LinkFacts(ns, h, toks[0]);
      AddDepsFrame(l, h, toks[1..]);
      var r := AddDeps(l, h, toks[1..]);
      assert r == AddDeps(ns, h, toks);
      forall k | |ns| <= k < |r|
        ensures r[k] == NewNode(r[k].name, false) && r[k].name in toks
      {
        if k < |l| {
          assert r[k] == l[k];
        } else {
          assert r[k].name in toks[1..];
        }
      }
    }
  }

  /** The dependency loop moves no node that was already there, and every token names a node afterwards. */
  lemma {:induction false} AddDepsFinds(ns: seq<Node>, h: nat, toks: seq<string>)
    requires h < |ns| && EdgesIn(ns)
    ensures forall name :: Find(ns, name).Some? ==> Find(AddDeps(ns, h, toks), name) == Find(ns, name)
    ensures forall t :: t in toks ==> Find(AddDeps(ns, h, toks), t).Some?
    decreases |toks|
  {
    if toks != [] {
      var l := Link(ns, h, toks[0]);
      LinkFacts(ns, h, toks[0]);
      AddDepsFinds(l, h, toks[1..]);
      var r := AddDeps(l, h, toks[1..]);
      assert r == AddDeps(ns, h, toks);
      forall t | t in toks
        ensures Find(r, t).Some?
      {
        if t != toks[0] {
          assert t in toks[1..];
        }
      }
    }
  }

  /** The dependency loop adds an edge for every token, in token order, skipping edges already present. */
  lemma {:induction false} AddDepsOrder(ns: seq<Node>, h: nat, toks: seq<string>)
    requires h < |ns| && EdgesIn(ns)
    ensures forall t :: t in toks ==> Find(AddDeps(ns, h, toks), t).Some?
    ensures AddDeps(ns, h, toks)[h].children ==
      AppendNew(ns[h].children, Positions(AddDeps(ns, h, toks), toks))
    decreases |toks|
  {
    AddDepsFinds(ns, h, toks);
    if toks != [] {
      var l := Link(ns, h, toks[0]);
      LinkFacts(ns, h, toks[0]);
      AddDepsFinds(l, h, toks[1..]);
      AddDepsOrder(l, h, toks[1..]);
      var r := AddDeps(l, h, toks[1..]);
      var p := Find(l, toks[0]).value;
      assert Find(r, toks[0]) == Some(p);
      assert Positions(r, toks) == [p] + Positions(r, toks[1..]);
      assert l[h].children == if p in ns[h].children then ns[h].children else ns[h].children + [p];
    }
  }

  /** What `AppendNew` promises: old edges first, every new one present, nothing else, no repeats. */
  lemma {:induction false} AppendNewFacts(ch: seq<nat>, xs: seq<nat>)
    ensures ch <= AppendNew(ch, xs)
    ensures forall x :: x in xs ==> x in AppendNew(ch, xs)
    ensures forall y :: y in AppendNew(ch, xs) ==> y in ch || y in xs
    ensures NoDup(ch) ==> NoDup(AppendNew(ch, xs))
    decreases |xs|
  {
    if xs != [] {
      var ch1 := if xs[0] in ch then ch else ch + [xs[0]];
      AppendNewFacts(ch1, xs[1..]);
      assert xs[0] in ch1;
      assert forall x :: x in xs ==> x == xs[0] || x in xs[1..];
      if NoDup(ch) && xs[0] !in ch {
        assert NoDup(ch1);
      }
    }
  }

  /** A rule is refused exactly when sscanf finds no target word or the target already has dependencies. */
  lemma DeclareLineRefused(ns: seq<Node>, line: string, sc: Scan)
    requires sc == ScanTargetLine(line)
    ensures DeclareLine(ns, line).Err? <==> sc.count < 1 || HasRule(ns, sc.target)
    ensures DeclareLine(ns, line).Err? ==>
      DeclareLine(ns, line).error == if sc.count < 1 then InvalidFormat else DuplicateTarget
  {
  }

  /**
    An accepted rule changes only its target's edges; a new target is appended
    with `target = 1`, a known one keeps its flag and commands, and every other
    added node is a plain dependency (`target = 0`) named by a token.
  */
  lemma DeclareLineNodes(ns: seq<Node>, line: string, sc: Scan, r: seq<Node>, h: nat)
    requires EdgesIn(ns) && sc == ScanTargetLine(line) && DeclareLine(ns, line) == Ok((r, h))
    ensures h < |r| && |ns| <= |r|
    ensures EdgesIn(r)
    ensures UniqueNames(ns) ==> UniqueNames(r)
    ensures SimpleEdges(ns) ==> SimpleEdges(r)
    ensures Find(r, sc.target) == Some(h)
    ensures Find(ns, sc.target).None? ==> h == |ns| && r[h] == NewNode(sc.target, true).(children := r[h].children)
    ensures Find(ns, sc.target).Some? ==> h < |ns| && r[h] == ns[h].(children := r[h].children)
    ensures forall k :: 0 <= k < |ns| && k != h ==> r[k] == ns[k]
    ensures forall k :: |ns| <= k < |r| && k != h ==> r[k] == NewNode(r[k].name, false) && r[k].name in Tokens(sc.rest)
  {
    var toks := Tokens(sc.rest);
    match Find(ns, sc.target)
    case Some(h0) =>
      AddDepsShape(ns, h, toks);
      AddDepsFrame(ns, h, toks);
      AddDepsFinds(ns, h, toks);
    case None =>
      var ns1 := ns + [NewNode(sc.target, true)];
      AppendKeeps(ns, NewNode(sc.target, true));
      assert forall k :: 0 <= k < |ns| ==> ns1[k] == ns[k];
      AddDepsShape(ns1, h, toks);
      AddDepsFrame(ns1, h, toks);
      AddDepsFinds(ns1, h, toks);
  }

  /**
    An accepted rule gives its target one edge per distinct token, to the
    token's node, in the order the tokens appear.
  */
  lemma DeclareLineEdges(ns: seq<Node>, line: string, sc: Scan, r: seq<Node>, h: nat)
    requires EdgesIn(ns) && sc == ScanTargetLine(line) && DeclareLine(ns, line) == Ok((r, h))
    ensures h < |r|
    ensures forall t :: t in Tokens(sc.rest) ==> Find(r, t).Some?
    ensures r[h].children == AppendNew([], Positions(r, Tokens(sc.rest)))
  {
    var toks := Tokens(sc.rest);
    match Find(ns, sc.target)
    case Some(h0) =>
      AddDepsOrder(ns, h, toks);
    case None =>
      var ns1 := ns + [NewNode(sc.target, true)];
      AppendKeeps(ns, NewNode(sc.target, true));
      AddDepsOrder(ns1, h, toks);
  }

  /**
    The same on the raw line before fixLine: a line with one colon, one word
    before it and no newline before its end declares that word, refused
    exactly when it already has a rule, and links it to the words after the
    colon, whatever the spacing.
  */
  lemma DeclareRawRule(ns: seq<Node>, s: string, p: nat, w: string)
    requires EdgesIn(ns)
    requires TargetLine.OneColonAt(s, p) && TargetLine.NewlineLast(s)
    requires Tokens(s[..p]) == [w]
    ensures DeclareLine(ns, Fixed(s)).Err? <==> HasRule(ns, w)
    ensures DeclareLine(ns, Fixed(s)).Err? ==> DeclareLine(ns, Fixed(s)).error == DuplicateTarget
    ensures DeclareLine(ns, Fixed(s)).Ok? ==>
      var (r, h) := DeclareLine(ns, Fixed(s)).value;
      && h < |r| && Find(r, w) == Some(h)
      && (forall t :: t in Tokens(s[p + 1..]) ==> Find(r, t).Some?)
      && r[h].children == AppendNew([], Positions(r, Tokens(s[p + 1..])))
  {
    var sc := ScanTargetLine(Fixed(s));
    TargetLine.ScanFixedRule(s, p, w);
    DeclareLineRefused(ns, Fixed(s), sc);
    if DeclareLine(ns, Fixed(s)).Ok? {
      var (r, h) := DeclareLine(ns, Fixed(s)).value;
      DeclareLineNodes(ns, Fixed(s), sc, r, h);
      DeclareLineEdges(ns, Fixed(s), sc, r, h);
    }
  }

  /**
    With several words before the colon sscanf stops at the first: the line
    declares that word with no dependencies, and the other words are lost.
  */
  lemma DeclareRawRuleExtraWords(ns: seq<Node>, s: string, p: nat)
    requires EdgesIn(ns)
    requires TargetLine.OneColonAt(s, p) && |Tokens(s[..p])| >= 2
    ensures DeclareLine(ns, Fixed(s)).Err? <==> HasRule(ns, Tokens(s[..p])[0])
    ensures DeclareLine(ns, Fixed(s)).Ok? ==>
      var (r, h) := DeclareLine(ns, Fixed(s)).value;
      && h < |r| && Find(r, Tokens(s[..p])[0]) == Some(h) && r[h].children == []
  {
    var sc := ScanTargetLine(Fixed(s));
    TargetLine.ScanFixedRuleExtraWords(s, p);
    DeclareLineRefused(ns, Fixed(s), sc);
    if DeclareLine(ns, Fixed(s)).Ok? {
      var (r, h) := DeclareLine(ns, Fixed(s)).value;
      DeclareLineNodes(ns, Fixed(s), sc, r, h);
      DeclareLineEdges(ns, Fixed(s), sc, r, h);
      assert Tokens(sc.rest) == [];
    }
  }

  /** With no word before the colon, "%s" reads the ':' itself: the rule declares ":" with no dependencies. */
  lemma DeclareRawRuleNoWord(ns: seq<Node>, s: string, p: nat)
    requires EdgesIn(ns)
    requires TargetLine.OneColonAt(s, p) && Tokens(s[..p]) == []
    ensures DeclareLine(ns, Fixed(s)).Err? <==> HasRule(ns, ":")
    ensures DeclareLine(ns, Fixed(s)).Ok? ==>
      var (r, h) := DeclareLine(ns, Fixed(s)).value;
      && h < |r| && Find(r, ":") == Some(h) && r[h].children == []
  {
    var sc := ScanTargetLine(Fixed(s));
    TargetLine.ScanFixedRuleNoWord(s, p);
    DeclareLineRefused(ns, Fixed(s), sc);
    if DeclareLine(ns, Fixed(s)).Ok? {
      var (r, h) := DeclareLine(ns, Fixed(s)).value;
      DeclareLineNodes(ns, Fixed(s), sc, r, h);
      DeclareLineEdges(ns, Fixed(s), sc, r, h);
      assert Tokens(sc.rest) == [];
    }
  }

  // ---------------------------------------------------------------------
  // The line loop

  /** The loop state of parseMakeFileData: the graph, the pending `CMDS` list and the last rule `temp`. */
  datatype ParseState = ParseState(nodes: seq<Node>, cmds: seq<string>, temp: Option<nat>)

  /** `temp` points into the graph, and is set exactly once a rule exists; the graph is well formed. */
  predicate Inv(st: ParseState) {
    && EdgesIn(st.nodes) && UniqueNames(st.nodes) && SimpleEdges(st.nodes)
    && (st.temp.Some? <==> st.nodes != [])
    && (st.temp.Some? ==> st.temp.value < |st.nodes|)
    && (st.cmds != [] ==> st.temp.Some?)
  }

  /** addLine: the command list with `line` at its end. */
  function AddLine(cmds: seq<string>, line: string): (r: seq<string>)
    ensures |r| == |cmds| + 1 && r[..|cmds|] == cmds && r[|cmds|] == line
  {
    cmds + [line]
  }

  /** `temp->cmds = CMDS`: the pending commands replace those of the last rule's node. */
  function Attach(st: ParseState): seq<Node>
    requires Inv(st)
  {
    match st.temp
    case None => st.nodes
    case Some(t) => st.nodes[t := st.nodes[t].(cmds := st.cmds)]
  }

  /** Attaching commands changes nothing but one node's commands. */
  lemma AttachKeeps(st: ParseState)
    requires Inv(st)
    ensures |Attach(st)| == |st.nodes|
    ensures Inv(st.(nodes := Attach(st)))
    ensures forall k :: 0 <= k < |st.nodes| ==>
      Attach(st)[k] == st.nodes[k].(cmds := Attach(st)[k].cmds)
    ensures forall k :: 0 <= k < |st.nodes| && Some(k) != st.temp ==> Attach(st)[k] == st.nodes[k]
    ensures st.temp.Some? ==> Attach(st)[st.temp.value].cmds == st.cmds
    ensures forall name :: Find(Attach(st), name) == Find(st.nodes, name)
  {
    var a := Attach(st);
    forall name
      ensures Find(a, name) == Find(st.nodes, name)
    {
      FindSameNames(st.nodes, a, name);
    }
  }

  /** The C string a raw input line holds, and how the loop classifies it. */
  predicate IsCommandLine(raw: string) {
    var line := CString(raw);
    line != [] && line[0] == '\t'
  }

  /** The blank test as written: only a line that is empty as a C string or starts with a newline. */
  predicate IsBlank(raw: string) {
    var line := CString(raw);
    !IsCommandLine(raw) && (line == [] || line[0] == '\n')
  }

  predicate IsRuleLine(raw: string) {
    !IsCommandLine(raw) && !IsBlank(raw)
  }

  /** The text a tab line contributes: leading whitespace skipped, cut at the first newline. */
  function CommandText(raw: string): string {
    UpTo(SkipSpace(CString(raw)), '\n')
  }

  /** The target word sscanf reads from a rule line once fixLine has normalised it. */
  function RuleTarget(raw: string): string {
    ScanTargetLine(Fixed(CString(raw))).target
  }

  /** On a rule line with one colon and one word before it, the target read is that word. */
  lemma RuleTargetIsWord(raw: string, p: nat, w: string)
    requires TargetLine.OneColonAt(CString(raw), p) && TargetLine.NewlineLast(CString(raw))
    requires Tokens(CString(raw)[..p]) == [w]
    ensures RuleTarget(raw) == w
  {
    TargetLine.ScanFixedRule(CString(raw), p, w);
  }

  /** One iteration of the line loop of parseMakeFileData. */
  function Step(st: ParseState, raw: string): (r: Result<ParseState, ParseError>)
    requires Inv(st)
    ensures r.Ok? ==> Inv(r.value) && |st.nodes| <= |r.value.nodes|
    ensures r.Ok? ==> forall k :: 0 <= k < |st.nodes| ==> r.value.nodes[k].name == st.nodes[k].name
  {
    var line := CString(raw);
    if IsCommandLine(raw) then
      if st.nodes == [] then Err(CommandBeforeTarget)
      else
        var text := CommandText(raw);
        Ok(st.(cmds := if text != [] then AddLine(st.cmds, text) else st.cmds))
    else if IsBlank(raw) then Ok(st)
    else
      AttachKeeps(st);
      var ns := Attach(st);
      if multiset(line)[':'] != 1 then Err(ColonCount)
      else
        match DeclareLine(ns, Fixed(line))
        case Err(e) => Err(e)
        case Ok((ns', h)) =>
          DeclareLineNodes(ns, Fixed(line), ScanTargetLine(Fixed(line)), ns', h);
          Ok(ParseState(ns', [], Some(h)))
  }

  /** The rest of the loop from state `st`, and the final `if (CMDS != NULL) temp->cmds = CMDS`. */
  function ParseFrom(st: ParseState, lines: seq<string>): (r: Result<seq<Node>, ParseError>)
    requires Inv(st)
    ensures r.Ok? ==> EdgesIn(r.value) && UniqueNames(r.value) && SimpleEdges(r.value)
    ensures r.Ok? ==> |st.nodes| <= |r.value| && forall k :: 0 <= k < |st.nodes| ==> r.value[k].name == st.nodes[k].name
    decreases |lines|
  {
    if lines == [] then
      AttachKeeps(st);
      Ok(if st.cmds != [] then Attach(st) else st.nodes)
    else match Step(st, lines[0])
      case Err(e) => Err(e)
      case Ok(st') => ParseFrom(st', lines[1..])
  }

  /** The state parseMakeFileData starts from: an empty list, no commands, no rule. */
  function Start(): (st: ParseState)
    ensures Inv(st) && st.nodes == []
  {
    ParseState([], [], None)
  }

  /** parseMakeFileData on the lines of a rule file: the graph it builds, or the format error it exits with. */
  function ParseMakeFile(lines: seq<string>): (r: Result<seq<Node>, ParseError>)
    ensures r.Ok? ==> EdgesIn(r.value) && UniqueNames(r.value) && SimpleEdges(r.value)
  {
    ParseFrom(Start(), lines)
  }

  // ---------------------------------------------------------------------
  // Properties of the line loop

  /** Blank lines leave the whole state as it was. */
  lemma BlankLineSkipped(st: ParseState, raw: string)
    requires Inv(st) && IsBlank(raw)
    ensures Step(st, raw) == Ok(st)
  {
  }

  /**
    A target line needs exactly one colon; with one colon sscanf always finds
    the target word, so the only refusal left is a duplicate rule.
  */
  lemma RuleLineOutcome(st: ParseState, raw: string)
    requires Inv(st) && IsRuleLine(raw)
    ensures multiset(CString(raw))[':'] != 1 ==> Step(st, raw) == Err(ColonCount)
    ensures multiset(CString(raw))[':'] == 1 ==>
      (Step(st, raw) == Err(DuplicateTarget) <==> HasRule(st.nodes, RuleTarget(raw)))
    ensures multiset(CString(raw))[':'] == 1 ==>
      Step(st, raw).Ok? || Step(st, raw) == Err(DuplicateTarget)
  {
    var line := CString(raw);
    if multiset(line)[':'] == 1 {
      ColonLineScans(line);
      AttachKeeps(st);
      var ns := Attach(st);
      DeclareLineRefused(ns, Fixed(line), ScanTargetLine(Fixed(line)));
      assert HasRule(ns, RuleTarget(raw)) == HasRule(st.nodes, RuleTarget(raw));
    }
  }

  /** A line of whitespace that does not start with a tab or a newline is not blank: it is refused for its colons. */
  lemma WhitespaceLineRefused(st: ParseState, raw: string)
    requires Inv(st) && IsRuleLine(raw)
    requires NonSpace(CString(raw)) == []
    ensures Step(st, raw) == Err(ColonCount)
  {
    var line := CString(raw);
    if ':' in line {
      NonSpaceKeeps(line, ':');
    }
    assert multiset(line)[':'] == 0;
  }

  /**
    When a target line is accepted, the commands collected so far go to the
    previous rule's node, the pending list starts empty, and `temp` becomes the
    node of the new target.
  */
  lemma RuleLineAttaches(st: ParseState, raw: string)
    requires Inv(st) && IsRuleLine(raw) && Step(st, raw).Ok?
    ensures st.temp.Some? ==> Step(st, raw).value.nodes[st.temp.value].cmds == st.cmds
    ensures Step(st, raw).value.cmds == []
    ensures Step(st, raw).value.temp == Find(Step(st, raw).value.nodes, RuleTarget(raw))
  {
    AttachKeeps(st);
    var line := Fixed(CString(raw));
    var (r, h) := DeclareLine(Attach(st), line).value;
    DeclareLineNodes(Attach(st), line, ScanTargetLine(line), r, h);
  }

  /** The non-empty texts of the tab lines `lines`, in order. */
  function Commands(lines: seq<string>): seq<string>
    decreases |lines|
  {
    if lines == [] then []
    else (if CommandText(lines[0]) != [] then [CommandText(lines[0])] else []) + Commands(lines[1..])
  }

  /**
    Tab lines that end the input are collected in order and attached, with
    those already pending, to the rule read last; with none at all the graph
    is left as it is.
  */
  lemma {:induction false} TrailingCommands(st: ParseState, lines: seq<string>)
    requires Inv(st) && st.nodes != []
    requires forall i :: 0 <= i < |lines| ==> IsCommandLine(lines[i])
    ensures var c := st.cmds + Commands(lines);
      ParseFrom(st, lines) == Ok(if c != [] then Attach(st.(cmds := c)) else st.nodes)
    decreases |lines|
  {
    if lines == [] {
      assert st.cmds + Commands(lines) == st.cmds;
      assert st.(cmds := st.cmds) == st;
    } else {
      var st' := CommandLineStep(st, lines);
      TrailingCommands(st', lines[1..]);
    }
  }

  /** The first of several tab lines extends the pending commands by its text, if it has any. */
  lemma CommandLineStep(st: ParseState, lines: seq<string>) returns (st': ParseState)
    requires Inv(st) && st.nodes != [] && lines != []
    requires forall i :: 0 <= i < |lines| ==> IsCommandLine(lines[i])
    ensures Inv(st') && st'.nodes == st.nodes && st'.temp == st.temp
    ensures st'.cmds + Commands(lines[1..]) == st.cmds + Commands(lines)
    ensures forall i :: 0 <= i < |lines[1..]| ==> IsCommandLine(lines[1..][i])
    ensures ParseFrom(st, lines) == ParseFrom(st', lines[1..])
  {
    var text := CommandText(lines[0]);
    var head := if text != [] then [text] else [];
    st' := st.(cmds := st.cmds + head);
    assert IsCommandLine(lines[0]);
    if text != [] {
      assert AddLine(st.cmds, text) == st.cmds + head;
    } else {
      assert st.cmds + head == st.cmds;
    }
    assert Step(st, lines[0]) == Ok(st');
    assert Commands(lines) == head + Commands(lines[1..]);
    forall i | 0 <= i < |lines[1..]| ensures IsCommandLine(lines[1..][i]) {
      assert lines[1..][i] == lines[i + 1];
    }
  }

  /** Only blank lines before a tab line: the input is refused, commands cannot come first. */
  lemma {:induction false} CommandFirstRefused(st: ParseState, lines: seq<string>, i: nat)
    requires Inv(st) && st.nodes == []
    requires i < |lines| && IsCommandLine(lines[i])
    requires forall j :: 0 <= j < i ==> IsBlank(lines[j])
    ensures ParseFrom(st, lines) == Err(CommandBeforeTarget)
    decreases i
  {
    if i > 0 {
      assert IsBlank(lines[0]);
      assert Step(st, lines[0]) == Ok(st);
      assert forall j :: 0 <= j < i - 1 ==> IsBlank(lines[1..][j]) by {
        forall j | 0 <= j < i - 1 ensures IsBlank(lines[1..][j]) {
          assert lines[1..][j] == lines[j + 1];
        }
      }
      CommandFirstRefused(st, lines[1..], i - 1);
    }
  }

  /** The rule file as a whole: a tab line before any target line is an error. */
  lemma CommandFirstFile(lines: seq<string>, i: nat)
    requires i < |lines| && IsCommandLine(lines[i])
    requires forall j :: 0 <= j < i ==> IsBlank(lines[j])
    ensures ParseMakeFile(lines) == Err(CommandBeforeTarget)
  {
    CommandFirstRefused(Start(), lines, i);
  }

  /** No node carries a walk mark: neither `visited` nor `completed` is set. */
  predicate Unmarked(ns: seq<Node>) {
    forall k :: 0 <= k < |ns| ==> !ns[k].visited && !ns[k].completed
  }

  /** One line of the loop sets no walk mark: every node it adds or changes starts from NewNode. */
  lemma StepUnmarked(st: ParseState, raw: string)
    requires Inv(st) && Unmarked(st.nodes) && Step(st, raw).Ok?
    ensures Unmarked(Step(st, raw).value.nodes)
  {
    if !IsCommandLine(raw) && !IsBlank(raw) {
      AttachKeeps(st);
      var ns := Attach(st);
      var line := Fixed(CString(raw));
      var (r, h) := DeclareLine(ns, line).value;
      DeclareLineNodes(ns, line, ScanTargetLine(line), r, h);
    }
  }

  /** The rest of the loop and the final attach keep the graph free of walk marks. */
  lemma {:induction false} ParseFromUnmarked(st: ParseState, lines: seq<string>)
    requires Inv(st) && Unmarked(st.nodes) && ParseFrom(st, lines).Ok?
    ensures Unmarked(ParseFrom(st, lines).value)
    decreases |lines|
  {
    if lines == [] {
      AttachKeeps(st);
    } else {
      StepUnmarked(st, lines[0]);
      ParseFromUnmarked(Step(st, lines[0]).value, lines[1..]);
    }
  }

  /** A parsed rule file is a graph no walk has touched yet. */
  lemma ParseMakeFileUnmarked(lines: seq<string>)
    requires ParseMakeFile(lines).Ok?
    ensures Unmarked(ParseMakeFile(lines).value)
  {
    ParseFromUnmarked(Start(), lines);
  }

  // ---------------------------------------------------------------------
  // The imperative code

  /**
    useActionLineAndAddNodes on `g`: scans the target and the rest, refuses a
    duplicate rule, finds or adds the target node, then links the words of the
    rest in order. The C loop reads a word and links it before reading the
    next; reading depends on the text alone, so reading them all first gives
    the same graph.
  */
  method UseActionLineAndAddNodes(g: Graph, line: string) returns (r: Result<nat, ParseError>)
    requires g.Valid()
    modifies g
    ensures g.Valid()
    ensures DeclareLine(old(g.nodes), line).Err? ==> r == Err(DeclareLine(old(g.nodes), line).error)
    ensures DeclareLine(old(g.nodes), line).Ok? ==>
      r == Ok(DeclareLine(old(g.nodes), line).value.1) && g.nodes == DeclareLine(old(g.nodes), line).value.0
  {
    var sc := ScanTargetLine(line);
    if sc.count > 2 || sc.count < 1 {
      return Err(InvalidFormat);
    }
    var dup := g.SearchHeadActionForDup(sc.target);
    if dup {
      return Err(DuplicateTarget);
    }
    var h := HeadNode(g, sc.target);
    var toks := SplitTokens(sc.rest);
    LinkDependencies(g, h, toks);
    return Ok(h);
  }

  /** The node the rule is for: the one called `target`, or a new target node at the tail. */
  method HeadNode(g: Graph, target: string) returns (h: nat)
    requires g.Valid()
    modifies g
    ensures g.Valid() && h < |g.nodes|
    ensures Find(old(g.nodes), target).Some? ==> g.nodes == old(g.nodes) && h == Find(old(g.nodes), target).value
    ensures Find(old(g.nodes), target).None? ==> g.nodes == old(g.nodes) + [NewNode(target, true)] && h == |old(g.nodes)|
  {
    var head := g.FindParentNode(target);
    if head.None? {
      g.AddParentNode(NewNode(target, true));
      h := |g.nodes| - 1;
    } else {
      h := head.value;
    }
  }

  /** The body of the pointer loop for each word in turn: find or add its node, then add the edge from `h`. */
  method LinkDependencies(g: Graph, h: nat, toks: seq<string>)
    requires g.Valid() && h < |g.nodes|
    modifies g
    ensures g.Valid()
    ensures g.nodes == AddDeps(old(g.nodes), h, toks)
  {
    ghost var goal := AddDeps(g.nodes, h, toks);
    for i := 0 to |toks|
      invariant g.Valid() && h < |g.nodes|
      invariant AddDeps(g.nodes, h, toks[i..]) == goal
    {
      assert toks[i..][1..] == toks[i + 1..];
      AddDependency(g, h, toks[i]);
    }
  }

  /** One pass of the dependency loop: find or add the node called `tok`, then add the edge from `h`. */
  method AddDependency(g: Graph, h: nat, tok: string)
    requires g.Valid() && h < |g.nodes|
    modifies g
    ensures g.Valid()
    ensures g.nodes == Link(old(g.nodes), h, tok)
  {
    var found := g.FindParentNode(tok);
    var d: nat;
    if found.None? {
      g.AddParentNode(NewNode(tok, false));
      d := |g.nodes| - 1;
    } else {
      d := found.value;
    }
    g.AddChildNode(h, d);
  }

  /**
    The line loop of parseMakeFileData over `lines`, starting from an empty
    list. It returns `Fail` with the error the C code exits with.
  */
  method ParseMakeFileData(g: Graph, lines: seq<string>) returns (r: Outcome<ParseError>)
    requires g.Valid() && g.nodes == []
    modifies g
    ensures g.Valid()
    ensures ParseMakeFile(lines).Ok? ==> r == Pass && g.nodes == ParseMakeFile(lines).value
    ensures ParseMakeFile(lines).Err? ==> r == Fail(ParseMakeFile(lines).error)
  {
    var cmds: seq<string> := [];
    var temp: Option<nat> := None;
    var i := 0;
    while i < |lines|
      invariant i <= |lines| && g.Valid()
      invariant Inv(ParseState(g.nodes, cmds, temp))
      invariant ParseFrom(ParseState(g.nodes, cmds, temp), lines[i..]) == ParseMakeFile(lines)
    {
      assert lines[i..][0] == lines[i] && lines[i..][1..] == lines[i + 1..];
      var res := ParseLine(g, cmds, temp, lines[i]);
      if res.Err? {
        return Fail(res.error);
      }
      cmds, temp := res.value.0, res.value.1;
      i := i + 1;
    }
    if cmds != [] {
      AttachKeeps(ParseState(g.nodes, cmds, temp));
      g.nodes := g.nodes[temp.value := g.nodes[temp.value].(cmds := cmds)];
    }
    return Pass;
  }

  /** One pass of the line loop: the pending commands and `temp` after the line, or the error it exits with. */
  method ParseLine(g: Graph, cmds: seq<string>, temp: Option<nat>, raw: string)
    returns (r: Result<(seq<string>, Option<nat>), ParseError>)
    requires g.Valid() && Inv(ParseState(g.nodes, cmds, temp))
    modifies g
    ensures g.Valid()
    ensures Step(ParseState(old(g.nodes), cmds, temp), raw).Err? ==>
      r == Err(Step(ParseState(old(g.nodes), cmds, temp), raw).error)
    ensures Step(ParseState(old(g.nodes), cmds, temp), raw).Ok? ==>
      r.Ok? && Step(ParseState(old(g.nodes), cmds, temp), raw).value == ParseState(g.nodes, r.value.0, r.value.1)
  {
    ghost var st := ParseState(g.nodes, cmds, temp);
    var line := CString(raw);
    if line != [] && line[0] == '\t' {
      if g.nodes == [] {
        return Err(CommandBeforeTarget);
      }
      var text := TrimCommand(line);
      if |text| > 0 {
        return Ok((AddLine(cmds, text), temp));
      }
      return Ok((cmds, temp));
    } else if line == [] || line[0] == '\n' {
      // The C loop meant to skip leading whitespace tests isspace of a
      // boolean and never advances, so only these lines count as blank.
      return Ok((cmds, temp));
    }
    if temp.Some? {
      AttachKeeps(st);
      g.nodes := g.nodes[temp.value := g.nodes[temp.value].(cmds := cmds)];
    }
    var colons := CountColons(line);
    if colons != 1 {
      return Err(ColonCount);
    }
    var fixed := FixLine(line);
    var res := UseActionLineAndAddNodes(g, fixed);
    if res.Err? {
      return Err(res.error);
    }
    return Ok(([], Some(res.value)));
  }
}
