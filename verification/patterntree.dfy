/** The compiled pattern: node records addressed by index (the source keeps
    them in the bottom of its work area and links them by pointer).

    A node with `typelen > 0` is a leaf matching one byte against its text:
    `typelen` bytes taken from the pattern at `start`, or one of the
    built-in shorthand classes. A node with `typelen == 0` is a group whose
    children start at `child`; one with `typelen == -1` is an alternative
    built for `|`. `next` links siblings, `parent` points back up and
    `ornode` (on a group) names the most recent alternative built in it. */
module PatternTree {
  import opened Wrappers
  import CharClass

  /** Where a leaf's bytes come from; containers have none. */
  datatype Text = NoText | Span(start: nat) | Builtin(letter: char)

  datatype Node = Node(
    typelen: int,
    minimum: int,
    maximum: int,
    child: Option<nat>,
    text: Text,
    parent: Option<nat>,
    ornode: Option<nat>,
    next: Option<nat>)

  predicate RefIn(r: Option<nat>, n: nat) {
    r.Some? ==> r.value < n
  }

  /** Sibling links point forward: a node's successor was built after it. */
  predicate Linked(nodes: seq<Node>) {
    forall i :: 0 <= i < |nodes| && nodes[i].next.Some? ==> i < nodes[i].next.value < |nodes|
  }

  predicate LeafTextOk(n: Node, pat: seq<char>) {
    match n.text
    case NoText => false
    case Span(s) => s + n.typelen <= |pat|
    case Builtin(c) => CharClass.IsShorthand(c) && n.typelen == |CharClass.ShorthandClass(c)|
  }

  /** What holds of every node of a compiled pattern. */
  predicate NodeOk(nodes: seq<Node>, pat: seq<char>, i: nat)
    requires i < |nodes|
  {
    var n := nodes[i];
    && RefIn(n.child, |nodes|) && RefIn(n.parent, |nodes|) && RefIn(n.ornode, |nodes|)
    && (n.next.Some? ==> i < n.next.value < |nodes|)
    && (n.typelen > 0 ==> LeafTextOk(n, pat))
    && (n.typelen <= 0 ==> (n.typelen == 0 || n.typelen == -1) && n.text == NoText)
    // alternatives always repeat zero or one time
    && (n.typelen == -1 ==> n.minimum == 0 && n.maximum == 1)
    && (n.parent.Some? ==> nodes[n.parent.value].typelen <= 0)
    && (n.ornode.Some? ==> i < n.ornode.value && nodes[n.ornode.value].typelen == -1)
    && (n.typelen == 0 && n.child.Some? ==> i < n.child.value)
    // only the root has no parent
    && (i == 0 <==> n.parent.None?)
  }

  predicate WellFormed(nodes: seq<Node>, pat: seq<char>) {
    && |nodes| >= 1
    && nodes[0].typelen == 0
    && (forall i :: 0 <= i < |nodes| ==> NodeOk(nodes, pat, i))
    // implied by the node conditions; kept so that chains can be walked directly
    && Linked(nodes)
  }

  /** The sibling links of nodes that are each well formed point forward. */
  lemma NodesLinked(nodes: seq<Node>, pat: seq<char>)
    requires forall i :: 0 <= i < |nodes| ==> NodeOk(nodes, pat, i)
    ensures Linked(nodes)
  {
    forall i | 0 <= i < |nodes| && nodes[i].next.Some?
      ensures i < nodes[i].next.value < |nodes|
    {
      assert NodeOk(nodes, pat, i);
    }
  }

  /** A compiled pattern: the node records (the root is node 0) and the
      pattern text the leaves refer to. */
  datatype Tree = Tree(nodes: seq<Node>, pattern: seq<char>) {
    predicate Valid() {
      WellFormed(nodes, pattern)
    }
  }

  /** The bytes a leaf matches against. */
  function LeafText(t: Tree, i: nat): (s: seq<char>)
    requires t.Valid() && i < |t.nodes| && t.nodes[i].typelen > 0
    ensures |s| == t.nodes[i].typelen
  {
    assert NodeOk(t.nodes, t.pattern, i);
    var n := t.nodes[i];
    match n.text
    case Span(start) => t.pattern[start..start + n.typelen]
    case Builtin(c) => CharClass.ShorthandClass(c)
  }

  /** The sibling chain that starts at `from`, in order. */
  function Chain(nodes: seq<Node>, from: Option<nat>): (c: seq<nat>)
    requires Linked(nodes) && RefIn(from, |nodes|)
    ensures from.None? <==> |c| == 0
    ensures from.Some? ==> c[0] == from.value
    ensures forall k :: 0 <= k < |c| ==> c[k] < |nodes|
    ensures from.Some? ==> forall k :: 0 <= k < |c| ==> from.value <= c[k]
    decreases if from.Some? then |nodes| - from.value else 0
  {
    if from.None? then [] else [from.value] + Chain(nodes, nodes[from.value].next)
  }

  /** The last sibling of the chain starting at `i`, found by walking `next`. */
  function LastOf(nodes: seq<Node>, i: nat): (r: nat)
    requires Linked(nodes) && i < |nodes|
    ensures r == Chain(nodes, Some(i))[|Chain(nodes, Some(i))| - 1]
    ensures nodes[r].next.None?
    decreases |nodes| - i
  {
    if nodes[i].next.None? then i else LastOf(nodes, nodes[i].next.value)
  }

  /** A chain only depends on the `next` links of its own members. */
  lemma {:induction false} ChainFrame(a: seq<Node>, b: seq<Node>, from: Option<nat>)
    requires Linked(a) && Linked(b) && RefIn(from, |a|) && |a| <= |b|
    requires forall k :: k in Chain(a, from) ==> b[k].next == a[k].next
    ensures Chain(b, from) == Chain(a, from)
    decreases if from.Some? then |a| - from.value else 0
  {
    if from.Some? {
      var f := from.value;
      assert f in Chain(a, from);
      var rest := Chain(a, a[f].next);
      assert forall k :: k in rest ==> k in Chain(a, from);
      ChainFrame(a, b, a[f].next);
    }
  }

  /** Linking a new last node after the last member extends the chain by it. */
  lemma {:induction false} ChainExtend(a: seq<Node>, b: seq<Node>, from: Option<nat>, i: nat)
    requires Linked(a) && Linked(b) && RefIn(from, |a|) && |a| <= i < |b|
    requires |Chain(a, from)| > 0
    requires forall k :: k in Chain(a, from) && a[k].next.Some? ==> b[k].next == a[k].next
    requires b[Chain(a, from)[|Chain(a, from)| - 1]].next == Some(i) && b[i].next.None?
    ensures Chain(b, from) == Chain(a, from) + [i]
    decreases |a| - from.value
  {
    var f := from.value;
    var whole := Chain(a, from);
    assert f in whole;
    if a[f].next.None? {
      assert whole == [f];
      ChainExtendLast(a, b, f, i);
    } else {
      var rest := Chain(a, a[f].next);
      assert whole == [f] + rest;
      assert forall k :: k in rest ==> k in whole;
      assert rest[|rest| - 1] == whole[|whole| - 1];
      ChainExtend(a, b, a[f].next, i);
      ChainExtendStep(a, b, f, i);
    }
  }

  lemma ChainExtendLast(a: seq<Node>, b: seq<Node>, f: nat, i: nat)
    requires Linked(a) && Linked(b) && f < |a| <= i < |b|
    requires a[f].next.None? && b[f].next == Some(i) && b[i].next.None?
    ensures Chain(b, Some(f)) == Chain(a, Some(f)) + [i]
  {
    assert Chain(b, Some(i)) == [i];
  }

  lemma ChainExtendStep(a: seq<Node>, b: seq<Node>, f: nat, i: nat)
    requires Linked(a) && Linked(b) && f < |a| <= |b| && a[f].next.Some? && b[f].next == a[f].next
    requires Chain(b, a[f].next) == Chain(a, a[f].next) + [i]
    ensures Chain(b, Some(f)) == Chain(a, Some(f)) + [i]
  {
    assert Chain(b, Some(f)) == [f] + Chain(b, a[f].next);
  }

}
