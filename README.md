# A verified model of the Unix-Makefile-Model build engine

The repository is a small `make` clone in C. `parseMakeFile.c` reads a rule
file line by line. A line starting with a tab is a command for the rule read
last. A line holding one `:` is a rule `target : dependencies`. The rules go
into a dependency graph: a linked list of target nodes, each with a linked
list of edges to other nodes of the list. `parseTargetFile.c` then builds a
named target. It walks the graph in post-order (`POT`), compares file dates
given by `stat`, and runs the commands of every node that must be rebuilt
with `system`. Finally it reports "up to date" when no command ran.

The model has six modules, one per file or part of a file:

- `Wrappers` (`wrappers.dfy`): `Option`, `Result` and `Outcome`.
- `LineText` (`line_text.dfy`): the character-level helpers of the parser.
  These are C-locale `isspace`, C-string truncation, `countColons` and
  `fixLine`. The module also covers trimming a command line and the two
  `sscanf` patterns the parser uses.
- `TargetLine` (`target_line.dfy`): what a rule line reads as once fixLine has
  normalised it and `sscanf` has split it. With one word before the colon,
  the target is that word and the dependencies are the words after the
  colon, however the line is spaced; with several words before the colon,
  only the first is read and the dependencies are lost; with no word before
  the colon, the `:` itself is read as the target, with no dependencies.
- `DependencyGraph` (`dependency_graph.dfy`): the node record and the list
  `headLL`. The list is a sequence of nodes in list order, and an edge is the
  position of the node it points to. The class `Graph` holds the list and the
  default target. Its methods are `addParentNode`, `addChildNode`,
  `findParentNode` and `searchHeadActionForDup`.
- `RuleParser` (`rule_parser.dfy`): `useActionLineAndAddNodes` and the line
  loop of `parseMakeFileData`.
  - The functions `DeclareLine`, `Step` and `ParseFrom` say what one rule,
    one line and the rest of the file do to the graph.
  - The methods that change a `Graph` step by step are proved equal to those
    functions.
  - The lemmas state the parser's rules: blank lines, the colon count,
    duplicate rules, commands before any target, and where commands go.
- `BuildPlanner` (`build_planner.dfy`): the build half.
  - `Visit`, `VisitChildren`, `Probe`, `Finish` and `RunCmds` state what
    `POT` and `praseCMDS` compute, on a state made of the node list, the
    files, `CMDSused`, the echoed command lines, and a log of the nodes whose
    commands were run.
  - The class `Build` holds the same data as mutable fields. Each of its
    methods is proved equal to the matching function.
  - The lemmas cover the build's rules: missing files, staleness by strictly
    newer dates, cycle edges, commands run at most once per node, and the
    "up to date" report.

`stat` is a map from file names to modification times (`FileSystem`).
`system` is an arbitrary function (`Runner`): for a command line and the
current files, it gives the exit status and the files afterwards. Nothing is
assumed about it.

Where the repository's description and its code disagree, the model follows
the code:

- **Blank lines.** The loop that should skip leading whitespace before the
  blank-line test applies `isspace` to a truth value
  (parseMakeFile.c:491), so it never moves. Only an empty line or a line
  starting with a newline is skipped. A line of spaces is then read as a
  target line and refused for its colon count (`WhitespaceLineRefused`).
- **The `target` flag.** A node created as a dependency gets `target = 0`.
  A later rule for that name finds the node and keeps the flag
  (`DeclareLineNodes`). Such a node, if its file is missing, is a `stat`
  error rather than something to build.
- **Re-probe.** After the commands run, the second `stat` of a declared
  target can still fail. The code leaves `doesExist` and `fileDate` as they
  were, and so does the model (`Reprobe`).
- **Cycles.** `POT` on a node that is visited but not completed (a node on
  the current path) returns at once without completing it. The parent skips
  that edge in its staleness test (`Consider`). So "visited and completed
  after the call" (`VisitCompletes`) holds only for a node that was
  unvisited when the call began.
- **Pending commands.** When a target line arrives, `temp->cmds = CMDS` is
  an assignment. It replaces the commands of the last rule's node even when
  no command line came in between. At the end of the input it happens only
  when commands are pending (`Attach`, `ParseFrom`).

## Model

| member | source | states |
|---|---|---|
| LineText.CountColons | UnixMakefileModel/parseMakeFile.c:353-363 | the count returned is the number of `:` characters in the line |
| LineText.FixLine | UnixMakefileModel/parseMakeFile.c:374-418 | the loop produces exactly the normalised line `Fixed(oldLine)`, and its non-whitespace characters are the input's, in the same order |
| LineText.SkipLeading | UnixMakefileModel/parseMakeFile.c:387-392 | the leading-whitespace loop stops at the first non-whitespace index at or after the current one |
| LineText.CollapseRun | UnixMakefileModel/parseMakeFile.c:394-397 | the whitespace-run loop stops on the last character of the run |
| LineText.WriteAt | UnixMakefileModel/parseMakeFile.c:399-411 | one round of the loop writes exactly the text `Emit` specifies for the current character |
| LineText.Emit | UnixMakefileModel/parseMakeFile.c:399-411 | the text written for one character is that character, followed by one space exactly when a `:` comes next or the character is a `:` not followed by whitespace; so only whitespace is ever added |
| LineText.FixLineKeepsNonSpace | UnixMakefileModel/parseMakeFile.c:374-418 | fixLine changes only whitespace: the non-whitespace characters of its output are those of its input, in order |
| LineText.FixFromKeepsNonSpace | UnixMakefileModel/parseMakeFile.c:385-413 | from any point of the loop, the non-whitespace characters still to be written are those left in the input |
| LineText.ScanTargetLine | UnixMakefileModel/parseMakeFile.c:165-168 | `sscanf` returns -1, 1 or 2; from 1 on, the target is the first whitespace-separated word; with 2, the rest is non-empty, starts with a non-space and holds no newline; otherwise nothing is stored in the rest |
| LineText.ScanEofIffBlank | UnixMakefileModel/parseMakeFile.c:166-174 | `sscanf` reports EOF exactly when the line has no non-whitespace character |
| LineText.ColonLineScans | UnixMakefileModel/parseMakeFile.c:505-519 | a line with a colon, after fixLine, always yields a target word, so "Invalid Format" cannot follow an accepted colon count |
| TargetLine.ScanFixedRule | UnixMakefileModel/parseMakeFile.c:165-168 | on a line with exactly one `:`, one word before it and no newline before its end, the normalised line scans with a target, the target is that word, and the words of the rest are the words after the colon in the raw line |
| TargetLine.ScanFixedRuleExtraWords | UnixMakefileModel/parseMakeFile.c:165-168 | with two or more words before the one `:`, the normalised line scans as the first word alone, with count 1 and an empty rest, so the dependencies are lost |
| TargetLine.ScanFixedRuleNoWord | UnixMakefileModel/parseMakeFile.c:165-168 | with no word before the one `:`, the normalised line scans as the target `:` with count 1 and an empty rest |
| TargetLine.ScanColonFirst | UnixMakefileModel/parseMakeFile.c:165-168 | a `:` followed by whitespace and no other `:` scans as the target `:` with count 1 |
| TargetLine.ScanFixedShape | UnixMakefileModel/parseMakeFile.c:165-168 | with one word before the one `:`, the rest `sscanf` stores is the collapsed text after the colon, leading whitespace skipped and cut at the newline |
| TargetLine.ScanRuleShape | UnixMakefileModel/parseMakeFile.c:165-168 | a word, a space, a colon followed only by whitespace, then any text `sb`: the scan reads the word as target and `sb` without leading whitespace, cut at the newline, as rest |
| TargetLine.ScanSeveralWords | UnixMakefileModel/parseMakeFile.c:165-168 | a line that starts with two or more colon-free words and continues with anything scans as the first word with count 1 |
| TargetLine.FixedRuleShape | UnixMakefileModel/parseMakeFile.c:374-418 | on a line with one `:`, fixLine's output is the collapsed text from the first word up to the colon, a space, the colon's own output, then the collapsed text after it |
| TargetLine.FixBeforeColon | UnixMakefileModel/parseMakeFile.c:385-413 | from a point before the one `:`, the loop writes the collapsed text up to the colon, one space before the colon, the colon's text, then the collapsed rest |
| TargetLine.FixColonFree | UnixMakefileModel/parseMakeFile.c:385-413 | on colon-free text, once writing has begun, the loop writes each whitespace run as its last character and copies everything else |
| TargetLine.SqueezedTokens | UnixMakefileModel/parseMakeFile.c:394-397 | collapsing whitespace runs keeps the words of the text |
| TargetLine.RestTokens | UnixMakefileModel/parseMakeFile.c:165-168 | skipping leading whitespace and cutting at the final newline keeps the words of the collapsed text |
| LineText.SplitTokens | UnixMakefileModel/parseMakeFile.c:228-266 | the pointer walk of repeated `"%s"` reads, each followed by a whitespace skip, yields the tokens of the rest, in order |
| LineText.NextToken | UnixMakefileModel/parseMakeFile.c:251-255 | the pointer moves past the word just read and the whitespace after it; the tokens from there are the remaining ones |
| LineText.SkipBlanks | UnixMakefileModel/parseMakeFile.c:253-255 | the `isspace` skip moves forward to a non-whitespace character or the end, and passes over no token |
| LineText.TokensAreWords | UnixMakefileModel/parseMakeFile.c:229 | every token read is a non-empty word with no whitespace |
| LineText.TokensSpellNonSpace | UnixMakefileModel/parseMakeFile.c:229-255 | the tokens, joined, are exactly the non-whitespace characters of the text: reading loses only whitespace |
| LineText.TrimCommand | UnixMakefileModel/parseMakeFile.c:466-480 | the command text is the line with its leading whitespace dropped and cut at the first newline; it starts with a non-space and holds no newline |
| LineText.LeadingSpace | UnixMakefileModel/parseMakeFile.c:466-470 | the `noSpace` pointer stops where the leading whitespace ends |
| LineText.LineEnd | UnixMakefileModel/parseMakeFile.c:472-480 | the newline search stops at the first newline after the start, or at the end of the line |
| DependencyGraph.Find | UnixMakefileModel/parseMakeFile.c:97-110 | the lookup gives the first position holding the name, and nothing exactly when no node has that name |
| DependencyGraph.NewNode | UnixMakefileModel/parseMakeFile.c:193-210 | a node as useActionLineAndAddNodes allocates it: no commands, no edges, every flag clear, date -1; `DeclareLineNodes` and `ParseMakeFileUnmarked` state what follows from that |
| DependencyGraph.FindUnique | UnixMakefileModel/parseMakeFile.c:97-110 | with unique names, every node is found by its own name at its own position |
| DependencyGraph.FindAppend | UnixMakefileModel/parseMakeFile.c:32-49 | appending a node at the tail changes a lookup only for a name that was absent, which then finds the new node |
| DependencyGraph.AppendKeeps | UnixMakefileModel/parseMakeFile.c:32-49 | appending a node without edges keeps every edge in range, keeps edge lists duplicate-free, keeps names unique when the name is new, and moves no existing name |
| DependencyGraph.AddChild | UnixMakefileModel/parseMakeFile.c:58-87 | only the parent's edge list changes; it keeps its old edges as a prefix, contains the child, grows by at most one, is unchanged when the edge existed, and stays duplicate-free |
| DependencyGraph.AddChildIdempotent | UnixMakefileModel/parseMakeFile.c:58-87 | adding the same edge twice equals adding it once |
| DependencyGraph.AddChildKeeps | UnixMakefileModel/parseMakeFile.c:58-87 | adding an edge keeps the graph well formed, names unique and every lookup unchanged |
| DependencyGraph.FindSameNames | UnixMakefileModel/parseMakeFile.c:97-110 | a lookup depends only on the names in the list |
| DependencyGraph.Graph.AddParentNode | UnixMakefileModel/parseMakeFile.c:32-49 | the node is appended at the tail; the first node ever added becomes the default target, which never changes afterwards |
| DependencyGraph.Graph.AddChildNode | UnixMakefileModel/parseMakeFile.c:58-87 | the walk over the edge list appends the child unless the edge is already there |
| DependencyGraph.Graph.FindParentNode | UnixMakefileModel/parseMakeFile.c:97-110 | the walk from the head returns the first node with the name, or none |
| DependencyGraph.Graph.SearchHeadActionForDup | UnixMakefileModel/parseMakeFile.c:118-132 | the answer is 1 exactly when a node with the name exists and already has dependencies |
| DependencyGraph.HasRule | UnixMakefileModel/parseMakeFile.c:118-132 | a node with the name exists and already has dependencies; `SearchHeadActionForDup` is proved to compute it and `DeclareLineRefused` to be the duplicate test |
| RuleParser.Link | UnixMakefileModel/parseMakeFile.c:231-249 | one dependency token adds at most one node; `LinkFacts` states the rest |
| RuleParser.LinkFacts | UnixMakefileModel/parseMakeFile.c:231-249 | one token finds its node or appends a dependency node (target 0), then adds one edge from the rule's node to it unless present; nothing else changes and the graph stays well formed |
| RuleParser.AddDeps | UnixMakefileModel/parseMakeFile.c:229-266 | the dependency loop never removes a node; the `AddDeps` lemmas below state its effect |
| RuleParser.AddDepsShape | UnixMakefileModel/parseMakeFile.c:229-266 | the dependency loop keeps every edge in range, names unique and edge lists duplicate-free |
| RuleParser.AddDepsFrame | UnixMakefileModel/parseMakeFile.c:229-266 | the loop changes only the edges of the rule's node, and every node it adds is a fresh dependency node named by a token |
| RuleParser.AddDepsFinds | UnixMakefileModel/parseMakeFile.c:229-266 | the loop moves no existing node, and afterwards every token names a node |
| RuleParser.AddDepsOrder | UnixMakefileModel/parseMakeFile.c:229-266 | the rule's edge list is its old one followed by the tokens' nodes in token order, repeats skipped |
| RuleParser.AppendNew | UnixMakefileModel/parseMakeFile.c:58-87 | repeated `addChildNode` keeps the old edge list as a prefix and adds at most one edge per child |
| RuleParser.AppendNewFacts | UnixMakefileModel/parseMakeFile.c:58-87 | repeated `addChildNode` keeps the old edges first, adds every new one, adds nothing else and introduces no repeat |
| RuleParser.DeclareLine | UnixMakefileModel/parseMakeFile.c:155-271 | an accepted rule never removes a node and names a node of the new list; a refusal is "Invalid Format" or "Node already exists", never a colon or command error |
| RuleParser.DeclareLineRefused | UnixMakefileModel/parseMakeFile.c:166-187 | a rule is refused exactly when `sscanf` finds no target ("Invalid Format") or the target already has dependencies ("Node already exists") |
| RuleParser.DeclareLineNodes | UnixMakefileModel/parseMakeFile.c:189-249 | an accepted rule is found under its target name; a new target is appended with `target = 1`, an existing one keeps its flag and commands; no other existing node changes; every other added node is a dependency node named by a token |
| RuleParser.DeclareLineEdges | UnixMakefileModel/parseMakeFile.c:229-266 | an accepted rule gives its target one edge per distinct token, to that token's node, in the order the tokens appear |
| RuleParser.DeclareRawRule | UnixMakefileModel/parseMakeFile.c:155-271 | a raw rule line with one colon and one word before it declares that word: refused exactly when the word already has dependencies, otherwise found at the returned position with one edge per distinct word after the colon, in order, however the line is spaced |
| RuleParser.DeclareRawRuleExtraWords | UnixMakefileModel/parseMakeFile.c:155-271 | with several words before the colon, the rule declares the first word with no dependencies |
| RuleParser.DeclareRawRuleNoWord | UnixMakefileModel/parseMakeFile.c:155-271 | with no word before the colon the rule declares the node `:` with no dependencies, refused exactly when `:` already has dependencies |
| RuleParser.AddLine | UnixMakefileModel/parseMakeFile.c:322-346 | the command list gains the line at its end and keeps every earlier entry |
| RuleParser.Attach | UnixMakefileModel/parseMakeFile.c:500-502 | `temp->cmds = CMDS`: the pending commands replace the last rule's commands; `AttachKeeps` states that nothing else changes |
| RuleParser.AttachKeeps | UnixMakefileModel/parseMakeFile.c:500-502 | attaching the pending commands replaces the commands of the last rule's node and changes nothing else, including every lookup |
| RuleParser.IsCommandLine | UnixMakefileModel/parseMakeFile.c:456 | a line is a command line when, as a C string, it starts with a tab; `CommandLineStep` and `CommandFirstRefused` state what follows |
| RuleParser.IsBlank | UnixMakefileModel/parseMakeFile.c:489-498 | the blank test as written: the C string is empty or starts with a newline; `BlankLineSkipped` and `WhitespaceLineRefused` state what follows |
| RuleParser.IsRuleLine | UnixMakefileModel/parseMakeFile.c:486-511 | every other line is read as a target line; `RuleLineOutcome` states what follows |
| RuleParser.CommandText | UnixMakefileModel/parseMakeFile.c:466-480 | the text a tab line contributes; `TrimCommand` proves the loops compute it and `CommandLineStep` where it goes |
| RuleParser.RuleTarget | UnixMakefileModel/parseMakeFile.c:165-168 | the target `sscanf` reads from the normalised line; `RuleTargetIsWord` ties it to the raw line |
| RuleParser.RuleTargetIsWord | UnixMakefileModel/parseMakeFile.c:505-519 | on a rule line with one colon and one word before it, no newline before its end, the target read is that word |
| RuleParser.Step | UnixMakefileModel/parseMakeFile.c:452-522 | one line keeps the graph well formed: edges in range, names unique, no repeated edge, `temp` in the list; existing nodes keep their names and positions |
| RuleParser.ParseFrom | UnixMakefileModel/parseMakeFile.c:452-526 | the rest of the loop, with the final attach, yields a well-formed graph in which every node already there keeps its name and position; commands and edges may change |
| RuleParser.ParseMakeFile | UnixMakefileModel/parseMakeFile.c:443-530 | a rule file that parses yields a graph with edges in range, unique names and no repeated edge |
| RuleParser.BlankLineSkipped | UnixMakefileModel/parseMakeFile.c:489-498 | a blank line leaves the whole loop state as it was |
| RuleParser.RuleLineOutcome | UnixMakefileModel/parseMakeFile.c:500-519 | a target line without exactly one colon is refused for its colons; with one colon it is refused exactly when its target already has dependencies, and accepted otherwise |
| RuleParser.WhitespaceLineRefused | UnixMakefileModel/parseMakeFile.c:489-511 | a line of whitespace that does not start with a tab or a newline is not skipped but refused for its colon count |
| RuleParser.RuleLineAttaches | UnixMakefileModel/parseMakeFile.c:500-520 | an accepted target line gives the pending commands to the previous rule's node, empties the list, and makes `temp` the node of the new target |
| RuleParser.TrailingCommands | UnixMakefileModel/parseMakeFile.c:456-484 | tab lines at the end of the input are collected in order and, with those already pending, attached to the last rule; with none, the graph is unchanged |
| RuleParser.CommandLineStep | UnixMakefileModel/parseMakeFile.c:466-484 | a tab line appends its text, when non-empty, to the pending commands and leaves the graph and `temp` alone |
| RuleParser.CommandFirstRefused | UnixMakefileModel/parseMakeFile.c:456-462 | a tab line before any target line stops the parse with "Commands Cannot be First" |
| RuleParser.CommandFirstFile | UnixMakefileModel/parseMakeFile.c:456-462 | a rule file whose first non-blank line is a tab line is refused |
| RuleParser.StepUnmarked | UnixMakefileModel/parseMakeFile.c:452-522 | one line of the loop sets no node's `visited` or `completed` |
| RuleParser.ParseFromUnmarked | UnixMakefileModel/parseMakeFile.c:452-526 | the rest of the loop, with the final attach, sets no node's `visited` or `completed` |
| RuleParser.ParseMakeFileUnmarked | UnixMakefileModel/parseMakeFile.c:443-530 | no node of a parsed rule file is visited or completed |
| RuleParser.UseActionLineAndAddNodes | UnixMakefileModel/parseMakeFile.c:155-271 | the procedure returns the refusal or the target node's position, and leaves the graph `DeclareLine` specifies |
| RuleParser.HeadNode | UnixMakefileModel/parseMakeFile.c:189-214 | the rule's node is the existing node with the name, or a new target node appended at the tail |
| RuleParser.LinkDependencies | UnixMakefileModel/parseMakeFile.c:229-266 | linking the tokens one by one leaves the graph `AddDeps` specifies |
| RuleParser.AddDependency | UnixMakefileModel/parseMakeFile.c:231-249 | one pass finds or adds the token's node and the edge, as `Link` specifies |
| RuleParser.ParseMakeFileData | UnixMakefileModel/parseMakeFile.c:443-530 | the loop ends with the graph `ParseMakeFile` specifies, or fails with exactly the error it specifies |
| RuleParser.ParseLine | UnixMakefileModel/parseMakeFile.c:452-522 | one pass of the loop leaves the graph, pending commands and `temp` that `Step` specifies, or fails with its error |
| BuildPlanner.RunCmds | UnixMakefileModel/parseTargetFile.c:92-112 | running a command list leaves the nodes and the build log alone; echoing and counting grow together; the only failure is a failed command |
| BuildPlanner.RunCmdsEchoes | UnixMakefileModel/parseTargetFile.c:96-105 | a run that gets through echoes exactly the non-empty lines in order and adds their number to `CMDSused` |
| BuildPlanner.RunCmdsStops | UnixMakefileModel/parseTargetFile.c:96-102 | a failed run stops at a non-empty line that the shell fails on, after every earlier line went through |
| BuildPlanner.InCycle | UnixMakefileModel/parseTargetFile.c:158 | a child on the current path is visited and not completed; `Consider` states that its edge is skipped |
| BuildPlanner.Stale | UnixMakefileModel/parseTargetFile.c:161-164 | a child forces a rebuild when its file is missing or strictly newer; `Consider` and `EqualDatesKeep` state its use |
| BuildPlanner.Consider | UnixMakefileModel/parseTargetFile.c:158-165 | only `mustBuild` changes: it ends up set exactly when it was set already, or the child is not on a cycle and is missing or strictly newer |
| BuildPlanner.EqualDatesKeep | UnixMakefileModel/parseTargetFile.c:161-164 | an existing child with an equal or older date never forces a rebuild |
| BuildPlanner.Probe | UnixMakefileModel/parseTargetFile.c:130-152 | the first `stat` touches only the node list; it keeps every name, command list, edge list and target flag, changes no visited node other than `n`, and keeps `n`'s `visited` and `completed` as they were (`Visit` sets the mark before it). It fails only with a `stat` error or "Node Does not Exist" |
| BuildPlanner.Reprobe | UnixMakefileModel/parseTargetFile.c:170-179 | the second `stat` touches only the node list, changes no visited node other than `n`, and keeps `n`'s `visited` and `mustBuild`; it fails only with a `stat` error |
| BuildPlanner.Finish | UnixMakefileModel/parseTargetFile.c:168-182 | finishing changes no visited node other than `n`. It keeps every name, command list, edge list, target flag and visited mark, and only extends the echo, the count and the log |
| BuildPlanner.FinishCompletes | UnixMakefileModel/parseTargetFile.c:168-182 | finishing completes the node. When it must be built, its commands ran and its date is what `stat` says afterwards (or it is a declared target), and it is logged last. Otherwise nothing else changes |
| BuildPlanner.FinishDecision | UnixMakefileModel/parseTargetFile.c:168-182 | the end of POT keeps the rebuild decision and leaves every walked child other than the node itself as it was |
| BuildPlanner.Visit | UnixMakefileModel/parseTargetFile.c:123-183 | a walk changes no visited node, keeps every node's name, commands, edges and target flag and every visited mark, and only extends the echo, the count and the log |
| BuildPlanner.VisitChildren | UnixMakefileModel/parseTargetFile.c:154-166 | the loop over the edges changes node `n` only by setting `mustBuild`, and otherwise keeps the walk's frame ; `ChildrenDecide` states the decision the whole loop takes |
| BuildPlanner.ChildrenDecide | UnixMakefileModel/parseTargetFile.c:154-166 | after the loop every child has been walked, and `mustBuild` is set exactly when it was set already or some child not on the cycle is missing or strictly newer than the node |
| BuildPlanner.VisitSkipsVisited | UnixMakefileModel/parseTargetFile.c:124-126 | `POT` on a visited node returns at once and changes nothing |
| BuildPlanner.VisitCompletes | UnixMakefileModel/parseTargetFile.c:123-183 | a walk that returns from a node unvisited at the call leaves it visited and completed |
| BuildPlanner.VisitMarks | UnixMakefileModel/parseTargetFile.c:124-128 | a walk that returns leaves its node visited, whether it was visited at the call or not |
| BuildPlanner.VisitDecides | UnixMakefileModel/parseTargetFile.c:123-166 | for a node the walk marks, every child is walked before the rebuild decision, and `mustBuild` is set exactly when it already was, the node's file is missing, or some other child not on the cycle is missing or strictly newer than the date the first `stat` gave |
| BuildPlanner.VisitMissing | UnixMakefileModel/parseTargetFile.c:130-152 | a missing file is a `stat` error for a non-target and "Node Does not Exist" for a target without edges; otherwise the node is marked to be built |
| BuildPlanner.VisitReprobes | UnixMakefileModel/parseTargetFile.c:168-181 | a node built by the walk had its commands run last, and its recorded date is the one `stat` gives afterwards, or else it is a declared target |
| BuildPlanner.ProbeOnceEach | UnixMakefileModel/parseTargetFile.c:128-152 | marking and probing a node keeps the at-most-once property below: it completes no node and logs none |
| BuildPlanner.ConsiderOnceEach | UnixMakefileModel/parseTargetFile.c:158-165 | the staleness test keeps that property: it completes no node and logs none |
| BuildPlanner.VisitOnceEach | UnixMakefileModel/parseTargetFile.c:123-183 | after a walk, no node's commands ran twice, commands ran only for completed nodes, and only visited nodes are completed |
| BuildPlanner.ChildrenOnceEach | UnixMakefileModel/parseTargetFile.c:154-166 | the loop over the edges keeps the same property |
| BuildPlanner.FinishOnceEach | UnixMakefileModel/parseTargetFile.c:168-182 | finishing a node not yet logged keeps it |
| BuildPlanner.ChildStep | UnixMakefileModel/parseTargetFile.c:155-165 | one pass of the edge loop keeps the walk's frame and advances along the edge list as `VisitChildren` specifies |
| BuildPlanner.ResetAll | UnixMakefileModel/parseTargetFile.c:191-199 | every node keeps all its fields except `visited`, which is cleared |
| BuildPlanner.Make | UnixMakefileModel/parseTargetFile.c:210-230 | a build that gets through keeps every node's name, commands and edges, clears every visited mark, and extends the echo and `CMDSused` together |
| BuildPlanner.MakeNotFound | UnixMakefileModel/parseTargetFile.c:212-221 | the build stops with "Target Was not Found" exactly when no node has the name |
| BuildPlanner.MakeUpToDate | UnixMakefileModel/parseTargetFile.c:222-227 | from a fresh count, `CMDSused` is 0 after the build exactly when no command line was echoed |
| BuildPlanner.MakeFromFresh | UnixMakefileModel/parseTargetFile.c:210-230 | a build from a freshly parsed graph runs each node's commands at most once, completes the named target, and leaves no node visited |
| BuildPlanner.ParsedGraphIsFresh | UnixMakefileModel/parseMakeFile.c:443-530 | the graph a rule file parses to has its edges in range and, with an empty build log, is a fresh start for the build |
| BuildPlanner.MakeParsed | UnixMakefileModel/parseTargetFile.c:210-230 | every build of a parsed rule file runs each node's commands at most once, completes the named target, and leaves no node visited |
| BuildPlanner.Build.VerifyTargetNode | UnixMakefileModel/parseTargetFile.c:72-83 | the walk from the head returns the first node with the name, or none |
| BuildPlanner.Build.RunCommands | UnixMakefileModel/parseTargetFile.c:92-112 | the loop over the command list leaves the files, echo and count that `RunCmds` specifies, or fails with its error |
| BuildPlanner.Build.StatFirst | UnixMakefileModel/parseTargetFile.c:130-152 | the first `stat` and the missing-file checks update node `n` as `Probe` specifies |
| BuildPlanner.Build.FinishNode | UnixMakefileModel/parseTargetFile.c:168-182 | the end of `POT` updates the state as `Finish` specifies |
| BuildPlanner.Build.POT | UnixMakefileModel/parseTargetFile.c:123-183 | the recursive walk leaves the state `Visit` specifies, or fails with its error |
| BuildPlanner.Build.WalkChildren | UnixMakefileModel/parseTargetFile.c:154-166 | the loop over the edges leaves the state `VisitChildren` specifies, or fails with its error |
| BuildPlanner.Build.WalkChild | UnixMakefileModel/parseTargetFile.c:155-165 | one pass walks the child and applies the staleness test, advancing `VisitChildren` by one edge |
| BuildPlanner.Build.ResetVisited | UnixMakefileModel/parseTargetFile.c:191-199 | every visited mark is cleared; nothing else changes |
| BuildPlanner.Build.ParseTargetFileData | UnixMakefileModel/parseTargetFile.c:210-230 | the entry point leaves the state `Make` specifies, or fails with its error; "up to date" is reported exactly when `CMDSused` is 0 |

## Left out

- Memory management is not modelled: allocation failures ("Ran Out of Memory" exits), `free`, `freeLL` and `freeLines`. Sequences have no size limit.
- `printLL` (parseMakeFile.c:281-311) is a debugging printer that the build never calls.
- Text written to stderr and `perror` is not modelled. Each fatal exit becomes a `ParseError` or `BuildError` value. Commands echoed to stdout are recorded in `echoed`. The "is up to date" message is the `upToDate` result.
- The state after a fatal error is not modelled, because the program exits there. The methods promise only the error.
- `getline` and the `FILE` are not modelled. The input is a sequence of lines, and each is cut at its first NUL byte, because every C string function used stops there.
- The 65-byte `tempTarget` buffer is not modelled: in C, a target word of 65 or more characters overflows it. The model takes words of any length.
- LineText.FixLine: on a line of whitespace only, the C loop reads past the terminating NUL. The model stops and writes nothing there. The parser never calls fixLine on such a line, because it checks the colon count first.
- RuleParser.UseActionLineAndAddNodes: the C loop reads a word and links it before reading the next. The model reads all words first (`SplitTokens`) and then links them. Reading does not depend on the graph, so the result is the same.
- `stat` and `system` are oracles. File times are unbounded integers, not `time_t`. The shell is an arbitrary function of the command line and the files.
- `CMDSused` is an unbounded `nat`: wrap-around of the C `int` is not modelled.
- The "Cycle has been Found" message is not modelled. The walk's handling of a cycle edge is modelled (`Consider` skips it).
- The program's `main` with its `argv` handling, which opens the rule file and calls the two entry points, is not part of this model.
- RuleParser.ParseMakeFileData: the `errSeen` result, which is always 0, becomes `Pass`.
