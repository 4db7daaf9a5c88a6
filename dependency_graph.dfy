/**
  The dependency graph of the rule-file parser (header.h, parseMakeFile.c).
  The C code keeps the targets in the linked list `headLL`, each with a linked
  list of `childNode` edges to other list members. Here the list is a sequence
  of node records in list order, and an edge is the position of the node it
  points to.
*/
module DependencyGraph {
  import opened Wrappers

  /** `struct parentNode`; `next` is the position in the sequence, `children` the edge list. */
  datatype Node = Node(
    name: string,
    cmds: seq<string>,
    children: seq<nat>,
    visited: bool,
    doesExist: bool,
    mustBuild: bool,
    completed: bool,
    fileDate: int,
    target: bool)

  /** A node as useActionLineAndAddNodes allocates it: no commands, no edges, every flag 0, date -1. */
  function NewNode(name: string, target: bool): Node {
    Node(name, [], [], false, false, false, false, -1, target)
  }

  predicate NoDup<T(==)>(xs: seq<T>) {
    forall i, j :: 0 <= i < j < |xs| ==> xs[i] != xs[j]
  }

  /** Every edge of every node points at a node of the list. */
  predicate EdgesIn(ns: seq<Node>) {
    forall i, k :: 0 <= i < |ns| && 0 <= k < |ns[i].children| ==> ns[i].children[k] < |ns|
  }

  /** No two nodes of the list share a name. */
  predicate UniqueNames(ns: seq<Node>) {
    forall i, j :: 0 <= i < j < |ns| ==> ns[i].name != ns[j].name
  }

  /** No node lists the same child twice. */
  predicate SimpleEdges(ns: seq<Node>) {
    forall i :: 0 <= i < |ns| ==> NoDup(ns[i].children)
  }

  /** findParentNode: the position of the first node called `name`, if any. */
  function Find(ns: seq<Node>, name: string): (r: Option<nat>)
    ensures r.Some? ==> r.value < |ns| && ns[r.value].name == name
    ensures r.Some? ==> forall k :: 0 <= k < r.value ==> ns[k].name != name
    ensures r.None? <==> forall k :: 0 <= k < |ns| ==> ns[k].name != name
  {
    if ns == [] then None
    else if ns[0].name == name then Some(0)
    else match Find(ns[1..], name)
      case None => None
      case Some(k) => Some(k + 1)
  }

  /** With unique names, the node called `ns[i].name` is found at `i`. */
  lemma FindUnique(ns: seq<Node>, i: nat)
    requires UniqueNames(ns) && i < |ns|
    ensures Find(ns, ns[i].name) == Some(i)
  {
  }

  /** Appending a node changes a lookup only for a name that was absent. */
  lemma FindAppend(ns: seq<Node>, node: Node, name: string)
    ensures Find(ns + [node], name) ==
      if Find(ns, name).Some? then Find(ns, name)
      else if node.name == name then Some(|ns|)
      else None
  {
    var r := Find(ns + [node], name);
    assert forall k :: 0 <= k < |ns| ==> (ns + [node])[k] == ns[k];
    if Find(ns, name).None? && node.name == name {
      assert (ns + [node])[|ns|].name == name;
    }
  }

  /** addParentNode with a node that has no edges yet keeps the graph well formed; a new name keeps names unique. */
  lemma AppendKeeps(ns: seq<Node>, node: Node)
    requires node.children == []
    ensures EdgesIn(ns) ==> EdgesIn(ns + [node])
    ensures SimpleEdges(ns) ==> SimpleEdges(ns + [node])
    ensures UniqueNames(ns) && Find(ns, node.name).None? ==> UniqueNames(ns + [node])
    ensures forall name :: Find(ns, name).Some? ==> Find(ns + [node], name) == Find(ns, name)
    ensures Find(ns, node.name).None? ==> Find(ns + [node], node.name) == Some(|ns|)
  {
    var ns1 := ns + [node];
    if EdgesIn(ns) {
      forall i, k | 0 <= i < |ns1| && 0 <= k < |ns1[i].children|
        ensures ns1[i].children[k] < |ns1|
      {
        assert i < |ns| && ns1[i] == ns[i];
      }
    }
    if SimpleEdges(ns) {
      forall i | 0 <= i < |ns1|
        ensures NoDup(ns1[i].children)
      {
        if i < |ns| {
          assert ns1[i] == ns[i];
        }
      }
    }
    if UniqueNames(ns) && Find(ns, node.name).None? {
      forall i, j | 0 <= i < j < |ns1|
        ensures ns1[i].name != ns1[j].name
      {
        assert ns1[i] == ns[i];
        if j < |ns| {
          assert ns1[j] == ns[j];
        }
      }
    }
    forall name | Find(ns, name).Some?
      ensures Find(ns1, name) == Find(ns, name)
    {
      FindAppend(ns, node, name);
    }
    FindAppend(ns, node, node.name);
  }

  /** searchHeadActionForDup: a node called `name` exists and already has dependencies. */
  predicate HasRule(ns: seq<Node>, name: string) {
    Find(ns, name).Some? && ns[Find(ns, name).value].children != []
  }

  /** addChildNode on the children list of node `p`. */
  function AddChild(ns: seq<Node>, p: nat, c: nat): (r: seq<Node>)
    requires p < |ns|
    ensures |r| == |ns|
    ensures forall k :: 0 <= k < |ns| && k != p ==> r[k] == ns[k]
    ensures r[p] == ns[p].(children := r[p].children)
    ensures var ch, ch' := ns[p].children, r[p].children;
      ch <= ch' && c in ch' && |ch'| <= |ch| + 1 && (c in ch ==> ch' == ch)
      && (NoDup(ch) ==> NoDup(ch'))
  {
    var ch := ns[p].children;
    ns[p := ns[p].(children := if c in ch then ch else ch + [c])]
  }

  /** Adding an edge that already exists changes nothing. */
  lemma AddChildIdempotent(ns: seq<Node>, p: nat, c: nat)
    requires p < |ns|
    ensures AddChild(AddChild(ns, p, c), p, c) == AddChild(ns, p, c)
  {
  }

  /** addChildNode keeps the graph well formed and the names where they were. */
  lemma AddChildKeeps(ns: seq<Node>, p: nat, c: nat)
    requires p < |ns| && c < |ns|
    ensures EdgesIn(ns) ==> EdgesIn(AddChild(ns, p, c))
    ensures SimpleEdges(ns) ==> SimpleEdges(AddChild(ns, p, c))
    ensures UniqueNames(ns) ==> UniqueNames(AddChild(ns, p, c))
    ensures forall name :: Find(AddChild(ns, p, c), name) == Find(ns, name)
  {
    var r := AddChild(ns, p, c);
    forall name
      ensures Find(r, name) == Find(ns, name)
    {
      FindSameNames(ns, r, name);
    }
  }

  /** Lookups only see names. */
  lemma {:induction false} FindSameNames(a: seq<Node>, b: seq<Node>, name: string)
    requires |a| == |b| && forall k :: 0 <= k < |a| ==> a[k].name == b[k].name
    ensures Find(a, name) == Find(b, name)
  {
    if a != [] && a[0].name != name {
      FindSameNames(a[1..], b[1..], name);
    }
  }

  /**
    The list `headLL` and the default target `targetNode`. The first node ever
    added names the default target.
  */
  class Graph {
    var nodes: seq<Node>
    var targetNode: Option<string>

    ghost predicate Valid()
      reads this
    {
      EdgesIn(nodes) && targetNode == (if nodes == [] then None else Some(nodes[0].name))
    }

    constructor ()
      ensures Valid() && nodes == []
    {
      nodes := [];
      targetNode := None;
    }

    /** addParentNode: appends `node` at the tail; an empty list makes it the default target. */
    method AddParentNode(node: Node)
      requires Valid()
      requires forall k :: 0 <= k < |node.children| ==> node.children[k] <= |nodes|
      modifies this
      ensures Valid()
      ensures nodes == old(nodes) + [node]
      ensures targetNode == if old(nodes) == [] then Some(node.name) else old(targetNode)
    {
      if nodes == [] {
        nodes := [node];
        if targetNode == None {
          targetNode := Some(node.name);
        }
        return;
      }
      nodes := nodes + [node];
    }

    /** addChildNode: walks the children of `p` and appends `c` unless it is already there. */
    method AddChildNode(p: nat, c: nat)
      requires Valid() && p < |nodes| && c < |nodes|
      modifies this
      ensures Valid()
      ensures nodes == AddChild(old(nodes), p, c)
      ensures targetNode == old(targetNode)
    {
      var ch := nodes[p].children;
      var i := 0;
      while i < |ch|
        invariant i <= |ch|
        invariant c !in ch[..i]
      {
        if ch[i] == c {
          return;
        }
        i := i + 1;
      }
      assert ch[..i] == ch;
      AddChildKeeps(nodes, p, c);
      nodes := nodes[p := nodes[p].(children := ch + [c])];
    }

    /** findParentNode: the walk from the head that stops at the first node called `name`. */
    method FindParentNode(name: string) returns (r: Option<nat>)
      requires Valid()
      ensures r == Find(nodes, name)
    {
      var i := 0;
      while i < |nodes|
        invariant i <= |nodes|
        invariant forall k :: 0 <= k < i ==> nodes[k].name != name
      {
        if nodes[i].name == name {
          FindFirst(nodes, name, i);
          return Some(i);
        }
        i := i + 1;
      }
      return None;
    }

    /** searchHeadActionForDup: 1 exactly when a node called `name` exists and has children. */
    method SearchHeadActionForDup(name: string) returns (dup: bool)
      requires Valid()
      ensures dup == HasRule(nodes, name)
    {
      var i := 0;
      while i < |nodes|
        invariant i <= |nodes|
        invariant forall k :: 0 <= k < i ==> nodes[k].name != name
      {
        if nodes[i].name == name {
          FindFirst(nodes, name, i);
          return nodes[i].children != [];
        }
        i := i + 1;
      }
      return false;
    }
  }

  /** `Find` is pinned down by its contract: the first position holding `name`. */
  lemma FindFirst(ns: seq<Node>, name: string, i: nat)
    requires i < |ns| && ns[i].name == name
    requires forall k :: 0 <= k < i ==> ns[k].name != name
    ensures Find(ns, name) == Some(i)
  {
  }
}
