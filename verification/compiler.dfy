/** The pattern compiler (`regcomp` with `regnode`, `regpat`, `regspcl`,
    `regappend` and `regminimax`): one left-to-right scan over the pattern
    that builds the node records. Instead of recursion it keeps the current
    container (`parent`), the last sibling built in it (`prev`) and the node a
    following quantifier applies to (`node`).

    Capacity is counted in cells: every node takes one, and node allocation
    fails once the nodes would exceed the capacity. */
module Compiler {
  import opened Wrappers
  import opened PatternTree
  import CharClass
  import Repetition

  /** Why compilation stopped. `UnmatchedClose` is a `)` with no open group,
      where the source follows the root's missing parent; `UncheckedRead` is a
      pattern ending in `\` or in `{m,`, where the source reads past the end. */
  datatype CompileError = StrayBracket | MissingAtom | UnmatchedClose | UncheckedRead | OutOfMemory

  /** The scanning state. `open` lists the groups entered and not yet closed,
      from the root to `parent`; it is bookkeeping for the proofs, the source
      finds the enclosing group through the `parent` links alone. */
  datatype Cursor = Cursor(
    nodes: seq<Node>,
    parent: nat,
    prev: Option<nat>,
    node: Option<nat>,
    off: nat,
    open: seq<nat>)

  predicate OpenPath(nodes: seq<Node>, open: seq<nat>) {
    && |open| >= 1 && open[0] == 0
    && (forall k :: 0 <= k < |open| ==> open[k] < |nodes| && nodes[open[k]].typelen == 0)
    && (forall j, k :: 0 <= j < k < |open| ==> open[j] < open[k])
    && (forall k :: 0 < k < |open| ==> nodes[open[k]].parent == Some(open[k - 1]))
  }

  /** What holds between steps of the scan. */
  predicate Ready(pat: seq<char>, cap: nat, c: Cursor) {
    && WellFormed(c.nodes, pat)
    && |c.nodes| <= cap
    && c.off <= |pat|
    && OpenPath(c.nodes, c.open)
    && c.open[|c.open| - 1] == c.parent
    && RefIn(c.prev, |c.nodes|)
    // a quantifier never lands on an alternative
    && (c.node.Some? ==> c.node.value < |c.nodes| && c.nodes[c.node.value].typelen >= 0)
  }

  /** `regappend`: hang node `i` after `prev`, or make it the first child of
      its parent when there is no previous sibling. */
  function Append(nodes: seq<Node>, i: nat, prev: Option<nat>): (r: seq<Node>)
    requires i < |nodes| && nodes[i].parent.Some? && nodes[i].parent.value < |nodes|
    requires RefIn(prev, |nodes|)
    ensures |r| == |nodes|
    ensures prev.Some? ==> r == nodes[prev.value := nodes[prev.value].(next := Some(i))]
    ensures prev.None? ==> r == nodes[nodes[i].parent.value := nodes[nodes[i].parent.value].(child := Some(i))]
  {
    match prev
    case Some(p) => nodes[p := nodes[p].(next := Some(i))]
    case None =>
      var up := nodes[i].parent.value;
      nodes[up := nodes[up].(child := Some(i))]
  }

  /** Changing one node keeps the records well formed when its kind is kept
      and the node itself stays well formed. */
  lemma UpdateKeepsWellFormed(nodes: seq<Node>, pat: seq<char>, k: nat, n: Node)
    requires WellFormed(nodes, pat) && k < |nodes| && n.typelen == nodes[k].typelen
    requires NodeOk(nodes[k := n], pat, k)
    ensures WellFormed(nodes[k := n], pat)
  {
    var r := nodes[k := n];
    forall i | 0 <= i < |r|
      ensures NodeOk(r, pat, i)
    {
      if i != k {
        assert NodeOk(nodes, pat, i);
      }
    }
    NodesLinked(r, pat);
  }

  /** Adding a fresh node keeps the records well formed. */
  lemma GrowKeepsWellFormed(nodes: seq<Node>, pat: seq<char>, n: Node)
    requires WellFormed(nodes, pat)
    requires NodeOk(nodes + [n], pat, |nodes|)
    ensures WellFormed(nodes + [n], pat)
  {
    var r := nodes + [n];
    forall i | 0 <= i < |r|
      ensures NodeOk(r, pat, i)
    {
      if i < |nodes| {
        assert NodeOk(nodes, pat, i);
        assert r[i] == nodes[i];
      }
    }
    NodesLinked(r, pat);
  }

  /** `regpat` (or `regspcl`) followed by `regappend`: a new leaf in the current
      group, linked after the previous sibling; it becomes both the previous
      sibling and the target of a following quantifier. */
  function AddLeaf(pat: seq<char>, cap: nat, c: Cursor, text: Text, len: int, off: nat): (r: Result<Cursor, CompileError>)
    requires Ready(pat, cap, c) && len > 0 && c.off < off <= |pat|
    requires LeafTextOk(Node(len, 1, 1, None, text, None, None, None), pat)
    ensures r.Failure? <==> |c.nodes| + 1 > cap
    ensures r.Failure? ==> r.error == OutOfMemory
    ensures r.Success? ==> Ready(pat, cap, r.value) && r.value.off == off
    ensures r.Success? ==> var i := |c.nodes|;
      && |r.value.nodes| == i + 1
      && r.value.nodes[i] == Node(len, 1, 1, None, text, Some(c.parent), None, None)
      && r.value.prev == Some(i) && r.value.node == Some(i)
      && r.value.parent == c.parent && r.value.open == c.open
      && (c.prev.Some? ==> r.value.nodes[c.prev.value].next == Some(i))
      && (c.prev.None? ==> r.value.nodes[c.parent].child == Some(i))
  {
    var i := |c.nodes|;
    if i + 1 > cap then Failure(OutOfMemory)
    else
      var n := Node(len, 1, 1, None, text, Some(c.parent), None, None);
      var grown := c.nodes + [n];
      assert NodeOk(c.nodes, pat, c.parent);
      GrowKeepsWellFormed(c.nodes, pat, n);
      var linked := Append(grown, i, c.prev);
      AppendKeepsWellFormed(grown, pat, i, c.prev);
      assert linked[i] == n;
      OpenPathKept(c.nodes, linked, c.open);
      Success(c.(nodes := linked, prev := Some(i), node := Some(i), off := off))
  }

  lemma AppendKeepsWellFormed(nodes: seq<Node>, pat: seq<char>, i: nat, prev: Option<nat>)
    requires WellFormed(nodes, pat) && i == |nodes| - 1
    requires nodes[i].parent.Some? && nodes[i].parent.value < i && nodes[nodes[i].parent.value].typelen <= 0
    requires RefIn(prev, i)
    ensures WellFormed(Append(nodes, i, prev), pat)
  {
    match prev
    case Some(p) =>
      assert NodeOk(nodes, pat, p);
      UpdateKeepsWellFormed(nodes, pat, p, nodes[p].(next := Some(i)));
    case None =>
      var up := nodes[i].parent.value;
      assert NodeOk(nodes, pat, up);
      UpdateKeepsWellFormed(nodes, pat, up, nodes[up].(child := Some(i)));
  }

  /** Rewriting fields other than `typelen` and `parent` leaves the open path intact. */
  lemma OpenPathKept(a: seq<Node>, b: seq<Node>, open: seq<nat>)
    requires OpenPath(a, open) && |a| <= |b|
    requires forall j :: 0 <= j < |open| ==> b[open[j]].typelen == a[open[j]].typelen && b[open[j]].parent == a[open[j]].parent
    ensures OpenPath(b, open)
  {
  }

  /** A group built after every open group, inside the innermost one, extends
      the open path. */
  lemma OpenPush(nodes: seq<Node>, open: seq<nat>, g: nat)
    requires OpenPath(nodes, open) && g < |nodes| && nodes[g].typelen == 0
    requires nodes[g].parent == Some(open[|open| - 1])
    requires forall k :: 0 <= k < |open| ==> open[k] < g
    ensures OpenPath(nodes, open + [g])
  {
  }

  /** Every group on the open path has an index no larger than the current parent. */
  lemma OpenBelowParent(nodes: seq<Node>, open: seq<nat>, k: nat)
    requires OpenPath(nodes, open) && k < |open|
    ensures open[k] <= open[|open| - 1]
  {
    if k < |open| - 1 {
      assert open[k] < open[|open| - 1];
    }
  }

  /** The root is the current group only when no group is open above it. */
  lemma RootOnlyAtBase(nodes: seq<Node>, open: seq<nat>)
    requires OpenPath(nodes, open)
    ensures open[|open| - 1] == 0 <==> |open| == 1
  {
    if |open| > 1 {
      assert open[0] < open[|open| - 1];
    }
  }

  // ---------------------------------------------------------------- leaves

  /** Net bracket depth of a slice: each `[` opens one level and each `]`
      closes one, with no regard to escapes. */
  function Depth(s: seq<char>): int {
    if |s| == 0 then 0
    else Depth(s[..|s| - 1]) + (if s[|s| - 1] == '[' then 1 else if s[|s| - 1] == ']' then -1 else 0)
  }

  /** The bracket-expression scan: from index `i` at nesting `depth`, the index
      just past the `]` that brings the depth back to zero, or the end of the
      pattern if none does. */
  function BracketEnd(pat: seq<char>, i: nat, depth: int): (j: nat)
    requires i <= |pat|
    ensures i <= j <= |pat|
    decreases |pat| - i
  {
    if i == |pat| || depth == 0 then i
    else if pat[i] == '[' then BracketEnd(pat, i + 1, depth + 1)
    else if pat[i] == ']' then BracketEnd(pat, i + 1, depth - 1)
    else BracketEnd(pat, i + 1, depth)
  }

  /** The scan stops at the first prefix whose net depth is zero, or at the
      end of the pattern; every shorter prefix is still open. */
  lemma {:induction false} BracketEndDepth(pat: seq<char>, off: nat, i: nat, depth: int)
    requires off < i <= |pat| && depth == Depth(pat[off..i]) && depth >= 0
    requires forall k :: off < k < i ==> Depth(pat[off..k]) > 0
    ensures var j := BracketEnd(pat, i, depth);
      && (j == |pat| || Depth(pat[off..j]) == 0)
      && (forall k :: off < k < j ==> Depth(pat[off..k]) > 0)
    decreases |pat| - i
  {
    if i < |pat| && depth != 0 {
      assert pat[off..i + 1][..i - off] == pat[off..i];
      var d := if pat[i] == '[' then depth + 1 else if pat[i] == ']' then depth - 1 else depth;
      assert Depth(pat[off..i + 1]) == d;
      BracketEndDepth(pat, off, i + 1, d);
    }
  }

  /** `[`: one leaf spanning the bracket expression, its length found by
      counting nesting depth from the opening `[`. */
  function Bracket(pat: seq<char>, cap: nat, c: Cursor): (r: Result<Cursor, CompileError>)
    requires Ready(pat, cap, c) && c.off < |pat| && pat[c.off] == '['
    ensures r.Failure? ==> r == Failure(OutOfMemory)
    ensures r.Success? ==> Ready(pat, cap, r.value) && r.value.off > c.off
  {
    var j := BracketEnd(pat, c.off + 1, 1);
    AddLeaf(pat, cap, c, Span(c.off), j - c.off, j)
  }

  /** The bracket leaf covers exactly the shortest slice from the `[` whose net
      depth is zero (or the rest of the pattern when there is none), and
      nothing else changes. */
  lemma BracketSpan(pat: seq<char>, cap: nat, c: Cursor)
    requires Ready(pat, cap, c) && c.off < |pat| && pat[c.off] == '['
    requires |c.nodes| + 1 <= cap
    ensures Bracket(pat, cap, c).Success?
    ensures var r := Bracket(pat, cap, c).value; var n := r.nodes[|c.nodes|];
      && n.text == Span(c.off) && r.off == c.off + n.typelen
      && (r.off == |pat| || Depth(pat[c.off..r.off]) == 0)
      && (forall k :: c.off < k < r.off ==> Depth(pat[c.off..k]) > 0)
  {
    assert pat[c.off..c.off + 1][..0] == [];
    assert Depth(pat[c.off..c.off + 1]) == 1;
    BracketEndDepth(pat, c.off, c.off + 1, 1);
  }

  /** A backslash: a shorthand letter becomes its built-in class, any other
      byte after it a one-byte leaf of that byte (so `\.` is still the
      wildcard). A backslash ending the pattern reads past its end. */
  function Escape(pat: seq<char>, cap: nat, c: Cursor): (r: Result<Cursor, CompileError>)
    requires Ready(pat, cap, c) && c.off < |pat| && pat[c.off] == '\\'
    ensures r.Failure? <==> c.off + 1 == |pat| || |c.nodes| + 1 > cap
    ensures r.Failure? ==> r.error == (if c.off + 1 == |pat| then UncheckedRead else OutOfMemory)
    ensures r.Success? ==> Ready(pat, cap, r.value) && r.value.off == c.off + 2 && |r.value.nodes| == |c.nodes| + 1
    ensures r.Success? ==> var n := r.value.nodes[|c.nodes|]; var x := pat[c.off + 1];
      && (CharClass.IsShorthand(x) ==> n.text == Builtin(x) && n.typelen == |CharClass.ShorthandClass(x)|)
      && (!CharClass.IsShorthand(x) ==> n.text == Span(c.off + 1) && n.typelen == 1)
  {
    if c.off + 1 == |pat| then Failure(UncheckedRead)
    else
      var x := pat[c.off + 1];
      if CharClass.IsLetter(x) && CharClass.IsShorthand(x) then
        AddLeaf(pat, cap, c, Builtin(x), |CharClass.ShorthandClass(x)|, c.off + 2)
      else
        AddLeaf(pat, cap, c, Span(c.off + 1), 1, c.off + 2)
  }

  /** Any other byte is a one-byte leaf matching itself (`.` matching anything). */
  function Literal(pat: seq<char>, cap: nat, c: Cursor): (r: Result<Cursor, CompileError>)
    requires Ready(pat, cap, c) && c.off < |pat|
    ensures r.Failure? ==> r == Failure(OutOfMemory)
    ensures r.Success? ==> Ready(pat, cap, r.value) && r.value.off == c.off + 1 && |r.value.nodes| == |c.nodes| + 1
    ensures r.Success? ==> r.value.nodes[|c.nodes|].text == Span(c.off) && r.value.nodes[|c.nodes|].typelen == 1
  {
    AddLeaf(pat, cap, c, Span(c.off), 1, c.off + 1)
  }

  // ---------------------------------------------------------------- groups

  /** `(`: a new group appended in the current one, which it replaces as parent. */
  function Open(pat: seq<char>, cap: nat, c: Cursor): (r: Result<Cursor, CompileError>)
    requires Ready(pat, cap, c) && c.off < |pat|
    ensures r.Failure? <==> |c.nodes| + 1 > cap
    ensures r.Failure? ==> r.error == OutOfMemory
    ensures r.Success? ==> Ready(pat, cap, r.value) && r.value.off == c.off + 1
    ensures r.Success? ==> var g := |c.nodes|;
      && |r.value.nodes| == g + 1
      && r.value.nodes[g] == Node(0, 1, 1, None, NoText, Some(c.parent), None, None)
      && r.value.parent == g && r.value.open == c.open + [g]
      && r.value.prev.None? && r.value.node.None?
      && (c.prev.Some? ==> r.value.nodes[c.prev.value].next == Some(g))
      && (c.prev.None? ==> r.value.nodes[c.parent].child == Some(g))
  {
    var g := |c.nodes|;
    if g + 1 > cap then Failure(OutOfMemory)
    else
      var n := Node(0, 1, 1, None, NoText, Some(c.parent), None, None);
      var grown := c.nodes + [n];
      assert NodeOk(c.nodes, pat, c.parent);
      GrowKeepsWellFormed(c.nodes, pat, n);
      var linked := Append(grown, g, c.prev);
      AppendKeepsWellFormed(grown, pat, g, c.prev);
      OpenPathKept(c.nodes, linked, c.open);
      assert linked[g] == n;
      OpenPush(linked, c.open, g);
      Success(c.(nodes := linked, parent := g, prev := None, node := None, off := c.off + 1, open := c.open + [g]))
  }

  /** `)`: the current group is closed; it becomes the target of a following
      quantifier, its parent the current group again, and the last member of
      that parent's chain the previous sibling. Closing the top level follows
      the root's missing parent. */
  function Close(pat: seq<char>, cap: nat, c: Cursor): (r: Result<Cursor, CompileError>)
    requires Ready(pat, cap, c) && c.off < |pat|
    ensures r.Failure? <==> |c.open| == 1
    ensures r.Failure? ==> r.error == UnmatchedClose
    ensures r.Success? ==> Ready(pat, cap, r.value) && r.value.off == c.off + 1
    ensures r.Success? ==>
      && r.value.nodes == c.nodes
      && r.value.open == c.open[..|c.open| - 1]
      && r.value.node == Some(c.parent)
      && r.value.parent == c.open[|c.open| - 2]
      && (r.value.prev.None? <==> c.nodes[r.value.parent].child.None?)
      && RefIn(c.nodes[r.value.parent].child, |c.nodes|)
      && (r.value.prev.Some? ==>
            c.nodes[r.value.prev.value].next.None? && r.value.prev.value in Chain(c.nodes, c.nodes[r.value.parent].child))
  {
    assert NodeOk(c.nodes, pat, c.parent);
    if c.nodes[c.parent].parent.None? then
      assert c.parent == 0;
      RootOnlyAtBase(c.nodes, c.open);
      Failure(UnmatchedClose)
    else
      assert |c.open| > 1;
      var up := c.nodes[c.parent].parent.value;
      assert up == c.open[|c.open| - 2];
      assert NodeOk(c.nodes, pat, up);
      var prev := if c.nodes[up].child.None? then None else Some(LastOf(c.nodes, c.nodes[up].child.value));
      Success(c.(parent := up, prev := prev, node := Some(c.parent), off := c.off + 1, open := c.open[..|c.open| - 1]))
  }

  // ----------------------------------------------------------- alternation

  /** Points every node listed in `chain` at parent `p`. */
  function Reparent(nodes: seq<Node>, chain: seq<nat>, p: nat): (r: seq<Node>)
    requires forall k :: 0 <= k < |chain| ==> chain[k] < |nodes|
    ensures |r| == |nodes|
    ensures forall k :: 0 <= k < |nodes| && k in chain ==> r[k] == nodes[k].(parent := Some(p))
    ensures forall k :: 0 <= k < |nodes| && k !in chain ==> r[k] == nodes[k]
    decreases |chain|
  {
    if |chain| == 0 then nodes
    else Reparent(nodes[chain[0] := nodes[chain[0]].(parent := Some(p))], chain[1..], p)
  }

  lemma ReparentKeepsWellFormed(nodes: seq<Node>, pat: seq<char>, chain: seq<nat>, p: nat)
    requires WellFormed(nodes, pat) && p < |nodes| && nodes[p].typelen <= 0
    requires forall k :: 0 <= k < |chain| ==> 0 < chain[k] < |nodes|
    ensures WellFormed(Reparent(nodes, chain, p), pat)
  {
    var r := Reparent(nodes, chain, p);
    forall i | 0 <= i < |r|
      ensures NodeOk(r, pat, i)
    {
      assert NodeOk(nodes, pat, i);
      if i in chain {
        assert i != 0;
      }
    }
    NodesLinked(r, pat);
  }

  /** Where the part of group `p`'s chain that a new `|` takes over begins:
      after the group's latest alternative, or at its first child. */
  function TakenFrom(nodes: seq<Node>, pat: seq<char>, p: nat): (from: Option<nat>)
    requires WellFormed(nodes, pat) && p < |nodes| && nodes[p].typelen == 0
    ensures RefIn(from, |nodes|) && (from.Some? ==> p < from.value)
  {
    assert NodeOk(nodes, pat, p);
    var q := nodes[p];
    if q.ornode.Some? then
      assert NodeOk(nodes, pat, q.ornode.value);
      nodes[q.ornode.value].next
    else q.child
  }

  /** The records after a `|` in group `p`, before reparenting: the new
      alternative `o` is added, owns the taken part as its children and is
      linked where that part began; the group records it as its latest
      alternative. */
  function LinkAlternative(nodes: seq<Node>, pat: seq<char>, p: nat): (rs: seq<Node>)
    requires WellFormed(nodes, pat) && p < |nodes| && nodes[p].typelen == 0
    ensures WellFormed(rs, pat) && |rs| == |nodes| + 1
    ensures rs[|nodes|] == Node(-1, 0, 1, TakenFrom(nodes, pat, p), NoText, Some(p), None, None)
    ensures nodes[p].ornode.Some? ==>
      var a := nodes[p].ornode.value; a < |nodes| && rs[a].next == Some(|nodes|) && rs[p].child == nodes[p].child
    ensures nodes[p].ornode.None? ==> rs[p].child == Some(|nodes|)
    ensures rs[p].ornode == Some(|nodes|)
    ensures forall k :: 0 <= k < |nodes| ==> rs[k].typelen == nodes[k].typelen && rs[k].parent == nodes[k].parent
    ensures forall k :: 0 <= k < |nodes| && Some(k) != nodes[p].ornode ==> rs[k].next == nodes[k].next
    ensures forall k :: 0 <= k < |nodes| && k != p && Some(k) != nodes[p].ornode ==> rs[k] == nodes[k]
  {
    var o := |nodes|;
    var q := nodes[p];
    assert NodeOk(nodes, pat, p);
    var n := Node(-1, 0, 1, TakenFrom(nodes, pat, p), NoText, Some(p), None, None);
    var grown := nodes + [n];
    GrowKeepsWellFormed(nodes, pat, n);
    var linked := if q.ornode.Some? then grown[q.ornode.value := grown[q.ornode.value].(next := Some(o))]
                  else grown[p := grown[p].(child := Some(o))];
    assert WellFormed(linked, pat) by {
      if q.ornode.Some? {
        var a := q.ornode.value;
        assert NodeOk(grown, pat, a);
        UpdateKeepsWellFormed(grown, pat, a, grown[a].(next := Some(o)));
      } else {
        UpdateKeepsWellFormed(grown, pat, p, grown[p].(child := Some(o)));
      }
    }
    assert NodeOk(linked, pat, p);
    var marked := linked[p := linked[p].(ornode := Some(o))];
    UpdateKeepsWellFormed(linked, pat, p, marked[p]);
    LinkAlternativeFrame(nodes, grown, linked, marked, p, o);
    marked
  }

  /** What the two link updates and the mark of `LinkAlternative` change. */
  lemma LinkAlternativeFrame(nodes: seq<Node>, grown: seq<Node>, linked: seq<Node>, marked: seq<Node>, p: nat, o: nat)
    requires p < |nodes| && o == |nodes| && |grown| == o + 1 && grown[..o] == nodes
    requires nodes[p].ornode.Some? ==> p < nodes[p].ornode.value < o
    requires linked == if nodes[p].ornode.Some? then grown[nodes[p].ornode.value := grown[nodes[p].ornode.value].(next := Some(o))]
                       else grown[p := grown[p].(child := Some(o))]
    requires marked == linked[p := linked[p].(ornode := Some(o))]
    ensures marked[o] == grown[o]
    ensures forall k :: 0 <= k < o ==> marked[k].typelen == nodes[k].typelen && marked[k].parent == nodes[k].parent
    ensures forall k :: 0 <= k < o && Some(k) != nodes[p].ornode ==> marked[k].next == nodes[k].next
    ensures forall k :: 0 <= k < o && k != p && Some(k) != nodes[p].ornode ==> marked[k] == nodes[k]
  {
    forall k | 0 <= k < o
      ensures marked[k].typelen == nodes[k].typelen && marked[k].parent == nodes[k].parent
      ensures Some(k) != nodes[p].ornode ==> marked[k].next == nodes[k].next
      ensures k != p && Some(k) != nodes[p].ornode ==> marked[k] == nodes[k]
    {
      assert grown[k] == nodes[k];
    }
  }

  /** `|`: a new alternative (typelen -1, optional) takes over the part of the
      current group's chain built since the previous `|` — everything after the
      previous alternative, or the whole chain when there is none — keeping its
      order and becoming its parent. The alternative is linked where that part
      began and recorded as the group's latest alternative; it is the previous
      sibling from now on, and no quantifier may follow it. */
  function Alternate(pat: seq<char>, cap: nat, c: Cursor): (r: Result<Cursor, CompileError>)
    requires Ready(pat, cap, c) && c.off < |pat|
    ensures r.Failure? <==> |c.nodes| + 1 > cap
    ensures r.Failure? ==> r.error == OutOfMemory
    ensures r.Success? ==> Ready(pat, cap, r.value) && r.value.off == c.off + 1
    ensures r.Success? ==>
      (r.value.prev == Some(|c.nodes|) && r.value.node.None? && r.value.parent == c.parent && r.value.open == c.open)
    ensures r.Success? ==> AlternativeBuilt(pat, c.nodes, c.parent, r.value.nodes)
  {
    var o := |c.nodes|;
    if o + 1 > cap then Failure(OutOfMemory)
    else
      var rs := TakeOver(c.nodes, pat, c.parent);
      TakeOverBuilt(c.nodes, pat, c.parent);
      AlternateOpenPath(c.nodes, rs, c.open, Chain(c.nodes, TakenFrom(c.nodes, pat, c.parent)));
      Success(c.(nodes := rs, prev := Some(o), node := None, off := c.off + 1))
  }

  /** The records after a `|` in group `p`. */
  function TakeOver(a: seq<Node>, pat: seq<char>, p: nat): (b: seq<Node>)
    requires WellFormed(a, pat) && p < |a| && a[p].typelen == 0
    ensures WellFormed(b, pat) && |b| == |a| + 1
    ensures forall k :: 0 <= k < |a| && k !in Chain(a, TakenFrom(a, pat, p)) ==>
      b[k].typelen == a[k].typelen && b[k].parent == a[k].parent
    ensures forall k :: k in Chain(a, TakenFrom(a, pat, p)) ==> p < k
  {
    var from := TakenFrom(a, pat, p);
    var taken := Chain(a, from);
    ChainAbove(a, from, p);
    var marked := LinkAlternative(a, pat, p);
    ReparentKeepsWellFormed(marked, pat, taken, |a|);
    Reparent(marked, taken, |a|)
  }

  /** Every member of a chain lies at or after its start. */
  lemma ChainAbove(a: seq<Node>, from: Option<nat>, x: nat)
    requires Linked(a) && RefIn(from, |a|) && (from.Some? ==> x < from.value)
    ensures forall k :: k in Chain(a, from) ==> x < k
  {
    var c := Chain(a, from);
    forall k | k in c ensures x < k {
      var i :| 0 <= i < |c| && c[i] == k;
      if i > 0 { assert c[0] < c[i]; }
    }
  }

  /** `TakeOver` does what a `|` is meant to do. */
  lemma TakeOverBuilt(a: seq<Node>, pat: seq<char>, p: nat)
    requires WellFormed(a, pat) && p < |a| && a[p].typelen == 0
    ensures AlternativeBuilt(pat, a, p, TakeOver(a, pat, p))
  {
    var from := TakenFrom(a, pat, p);
    var taken := Chain(a, from);
    var b := TakeOver(a, pat, p);
    assert NodeOk(a, pat, p);
    TakeOverSpared(a, pat, p);
    TakeOverRecords(a, pat, p);
    assert forall k :: k in taken ==> b[k].next == a[k].next;
    AlternateChain(a, b, from, taken);
  }

  /** The group and its previous alternative are not among the taken nodes. */
  lemma TakeOverSpared(a: seq<Node>, pat: seq<char>, p: nat)
    requires WellFormed(a, pat) && p < |a| && a[p].typelen == 0
    ensures p !in Chain(a, TakenFrom(a, pat, p))
    ensures a[p].ornode.Some? ==> a[p].ornode.value !in Chain(a, TakenFrom(a, pat, p))
  {
    var from := TakenFrom(a, pat, p);
    assert NodeOk(a, pat, p);
    if a[p].ornode.Some? {
      assert NodeOk(a, pat, a[p].ornode.value);
      ChainAbove(a, from, a[p].ornode.value);
    }
    ChainAbove(a, from, p);
  }

  /** Record by record, what `TakeOver` leaves. */
  lemma TakeOverRecords(a: seq<Node>, pat: seq<char>, p: nat)
    requires WellFormed(a, pat) && p < |a| && a[p].typelen == 0
    requires p !in Chain(a, TakenFrom(a, pat, p))
    requires a[p].ornode.Some? ==> a[p].ornode.value !in Chain(a, TakenFrom(a, pat, p))
    ensures var b := TakeOver(a, pat, p); var o := |a|; var taken := Chain(a, TakenFrom(a, pat, p));
      && |b| == o + 1
      && b[o] == Node(-1, 0, 1, TakenFrom(a, pat, p), NoText, Some(p), None, None)
      && (forall k :: k in taken ==> b[k].parent == Some(o) && b[k].next == a[k].next)
      && (a[p].ornode.Some? ==> b[a[p].ornode.value].next == Some(o) && b[p].child == a[p].child)
      && (a[p].ornode.None? ==> b[p].child == Some(o))
      && b[p].ornode == Some(o)
      && (forall k :: 0 <= k < o && k !in taken && k != p && Some(k) != a[p].ornode ==> b[k] == a[k])
  {
    var taken := Chain(a, TakenFrom(a, pat, p));
    var marked := LinkAlternative(a, pat, p);
    assert TakeOver(a, pat, p) == Reparent(marked, taken, |a|);
  }

  /** What a `|` in group `p` does to the records `a`, giving `b`. */
  predicate AlternativeBuilt(pat: seq<char>, a: seq<Node>, p: nat, b: seq<Node>)
    requires WellFormed(a, pat) && p < |a| && a[p].typelen == 0 && Linked(b)
  {
    var o := |a|;
    var from := TakenFrom(a, pat, p);
    var taken := Chain(a, from);
    assert NodeOk(a, pat, p);
    && |b| == o + 1
    // the new alternative, optional, in the group, at the end of its chain
    && b[o].typelen == -1 && b[o].minimum == 0 && b[o].maximum == 1
    && b[o].parent == Some(p) && b[o].next.None? && b[o].child == from
    // it owns the taken part, in the same order
    && Chain(b, b[o].child) == taken
    && (forall k :: k in taken ==> b[k].parent == Some(o))
    // it is linked where the taken part began
    && (a[p].ornode.Some? ==> b[a[p].ornode.value].next == Some(o) && b[p].child == a[p].child)
    && (a[p].ornode.None? ==> b[p].child == Some(o))
    && b[p].ornode == Some(o)
    // nothing else changes
    && (forall k :: 0 <= k < o && k !in taken && k != p && Some(k) != a[p].ornode ==> b[k] == a[k])
  }

  /** The taken chain keeps its links: none of its members is the group or
      the previous alternative, whose links were the only ones rewritten. */
  lemma AlternateChain(a: seq<Node>, b: seq<Node>, from: Option<nat>, taken: seq<nat>)
    requires Linked(a) && Linked(b) && RefIn(from, |a|) && |a| <= |b|
    requires taken == Chain(a, from)
    requires forall k :: k in taken ==> b[k].next == a[k].next
    ensures Chain(b, from) == taken
  {
    ChainFrame(a, b, from);
  }

  lemma AlternateOpenPath(a: seq<Node>, b: seq<Node>, open: seq<nat>, taken: seq<nat>)
    requires OpenPath(a, open) && |a| <= |b|
    requires forall k :: k in taken ==> open[|open| - 1] < k
    requires forall k :: 0 <= k < |a| && k !in taken ==> b[k].typelen == a[k].typelen && b[k].parent == a[k].parent
    ensures OpenPath(b, open)
  {
    forall j | 0 <= j < |open|
      ensures b[open[j]].typelen == a[open[j]].typelen && b[open[j]].parent == a[open[j]].parent
    {
      OpenBelowParent(a, open, j);
    }
    OpenPathKept(a, b, open);
  }

  // ----------------------------------------------------------- quantifiers

  /** Sets the repeat bounds of the quantifier target; a quantifier with no
      atom before it (at the start, after `(` or after `|`) fails. */
  function Bound(pat: seq<char>, cap: nat, c: Cursor, lo: int, hi: int, off: nat): (r: Result<Cursor, CompileError>)
    requires Ready(pat, cap, c) && c.off < off <= |pat|
    ensures r.Failure? <==> c.node.None?
    ensures r.Failure? ==> r.error == MissingAtom
    ensures r.Success? ==> Ready(pat, cap, r.value) && r.value.off == off
    ensures r.Success? ==> var n := c.node.value; var rs := r.value.nodes;
      && |rs| == |c.nodes|
      && rs[n].minimum == lo && rs[n].maximum == hi
      && rs[n] == c.nodes[n].(minimum := rs[n].minimum, maximum := rs[n].maximum)
      && (forall k :: 0 <= k < |rs| && k != n ==> rs[k] == c.nodes[k])
      && r.value == c.(nodes := rs, off := off)
  {
    match c.node
    case None => Failure(MissingAtom)
    case Some(n) =>
      var m := c.nodes[n].(minimum := lo, maximum := hi);
      assert NodeOk(c.nodes, pat, n);
      UpdateKeepsWellFormed(c.nodes, pat, n, m);
      OpenPathKept(c.nodes, c.nodes[n := m], c.open);
      Success(c.(nodes := c.nodes[n := m], off := off))
  }

  /** `?`, `+` and `*`: zero or one, one or more, any number. */
  function Quantify(pat: seq<char>, cap: nat, c: Cursor): (r: Result<Cursor, CompileError>)
    requires Ready(pat, cap, c) && c.off < |pat| && pat[c.off] in "?+*"
    ensures r.Failure? <==> c.node.None?
    ensures r.Failure? ==> r.error == MissingAtom
    ensures r.Success? ==> Ready(pat, cap, r.value) && r.value.off == c.off + 1
  {
    if pat[c.off] == '?' then Bound(pat, cap, c, 0, 1, c.off + 1)
    else if pat[c.off] == '+' then Bound(pat, cap, c, 1, Repetition.Unbounded, c.off + 1)
    else Bound(pat, cap, c, 0, Repetition.Unbounded, c.off + 1)
  }

  /** `{...}`: the bounds read by the counted-repetition parser, which also
      says how far the cursor moves. */
  function Counted(pat: seq<char>, cap: nat, c: Cursor): (r: Result<Cursor, CompileError>)
    requires Ready(pat, cap, c) && c.off < |pat| && pat[c.off] == '{'
    ensures r.Failure? <==> c.node.None? || Repetition.Minimax(pat[c.off..]).Failure?
    ensures r.Failure? ==> r.error == if c.node.None? then MissingAtom else UncheckedRead
    ensures r.Success? ==> Ready(pat, cap, r.value) && r.value.off > c.off
  {
    if c.node.None? then Failure(MissingAtom)
    else
      match Repetition.Minimax(pat[c.off..])
      case Failure(_) => Failure(UncheckedRead)
      case Success(rep) => Bound(pat, cap, c, rep.minimum, rep.maximum, c.off + rep.consumed)
  }

  // ----------------------------------------------------------------- driver

  /** One pass of the compiler's loop, chosen by the byte at the cursor. */
  function Step(pat: seq<char>, cap: nat, c: Cursor): (r: Result<Cursor, CompileError>)
    requires Ready(pat, cap, c) && c.off < |pat|
    ensures r.Success? ==> Ready(pat, cap, r.value) && r.value.off > c.off && |r.value.nodes| >= |c.nodes|
  {
    var ch := pat[c.off];
    if ch == '{' then Counted(pat, cap, c)
    else if ch == ']' then Failure(StrayBracket)
    else if ch == '[' then Bracket(pat, cap, c)
    else if ch == '|' then Alternate(pat, cap, c)
    else if ch == '(' then Open(pat, cap, c)
    else if ch == ')' then Close(pat, cap, c)
    else if ch == '\\' then Escape(pat, cap, c)
    else if ch in "?+*" then Quantify(pat, cap, c)
    else Literal(pat, cap, c)
  }

  /** The compiler's loop from cursor `c` to the end of the pattern. Groups
      still open at the end are accepted as if closed. */
  function CompileFrom(pat: seq<char>, cap: nat, c: Cursor): (r: Result<seq<Node>, CompileError>)
    requires Ready(pat, cap, c)
    ensures r.Success? ==> WellFormed(r.value, pat) && |c.nodes| <= |r.value| <= cap
    decreases |pat| - c.off
  {
    if c.off == |pat| then Success(c.nodes)
    else
      var next :- Step(pat, cap, c);
      CompileFrom(pat, cap, next)
  }

  /** The root group, with nothing built yet. */
  function Root(): Node {
    Node(0, 1, 1, None, NoText, None, None, None)
  }

  /** `regcomp`: compiles a pattern into node records within `cap` cells;
      the root group itself needs one. */
  function Compile(pat: seq<char>, cap: nat): (r: Result<Tree, CompileError>)
    ensures r.Success? ==> r.value.Valid() && r.value.pattern == pat && 1 <= |r.value.nodes| <= cap
    ensures cap == 0 ==> r == Failure(OutOfMemory)
  {
    if cap < 1 then Failure(OutOfMemory)
    else
      var start := Cursor([Root()], 0, None, None, 0, [0]);
      assert NodeOk(start.nodes, pat, 0);
      var nodes :- CompileFrom(pat, cap, start);
      Success(Tree(nodes, pat))
  }

  // ------------------------------------------------------------ properties

  predicate IsQuantifier(ch: char) {
    ch == '?' || ch == '+' || ch == '*' || ch == '{'
  }

  /** The starting cursor of `Compile`. */
  lemma StartReady(pat: seq<char>, cap: nat)
    requires cap >= 1
    ensures Ready(pat, cap, Cursor([Root()], 0, None, None, 0, [0]))
  {
    assert NodeOk([Root()], pat, 0);
  }

  /** A quantifier with no atom to apply to stops compilation. */
  lemma QuantifierNeedsAtom(pat: seq<char>, cap: nat, c: Cursor)
    requires Ready(pat, cap, c) && c.off < |pat| && IsQuantifier(pat[c.off]) && c.node.None?
    ensures Step(pat, cap, c) == Failure(MissingAtom)
  {
    if pat[c.off] == '{' {
      assert Step(pat, cap, c) == Counted(pat, cap, c);
    } else {
      assert Step(pat, cap, c) == Quantify(pat, cap, c);
    }
  }

  /** A pattern that opens with a quantifier has nothing to quantify. */
  lemma QuantifierAtStart(pat: seq<char>, cap: nat)
    requires |pat| >= 1 && IsQuantifier(pat[0])
    ensures Compile(pat, cap).Failure?
    ensures cap >= 1 ==> Compile(pat, cap) == Failure(MissingAtom)
  {
    if cap >= 1 {
      var start := Cursor([Root()], 0, None, None, 0, [0]);
      StartReady(pat, cap);
      QuantifierNeedsAtom(pat, cap, start);
    }
  }

  /** A quantifier straight after `(` has nothing to quantify. */
  lemma QuantifierAfterOpen(pat: seq<char>, cap: nat, c: Cursor)
    requires Ready(pat, cap, c) && c.off + 1 < |pat| && pat[c.off] == '(' && IsQuantifier(pat[c.off + 1])
    requires Step(pat, cap, c).Success?
    ensures Step(pat, cap, Step(pat, cap, c).value) == Failure(MissingAtom)
  {
    assert Step(pat, cap, c) == Open(pat, cap, c);
    QuantifierNeedsAtom(pat, cap, Open(pat, cap, c).value);
  }

  /** A quantifier straight after `|` has nothing to quantify. */
  lemma QuantifierAfterAlternate(pat: seq<char>, cap: nat, c: Cursor)
    requires Ready(pat, cap, c) && c.off + 1 < |pat| && pat[c.off] == '|' && IsQuantifier(pat[c.off + 1])
    requires Step(pat, cap, c).Success?
    ensures Step(pat, cap, Step(pat, cap, c).value) == Failure(MissingAtom)
  {
    StepAlternate(pat, cap, c);
    var next := Alternate(pat, cap, c).value;
    assert Ready(pat, cap, next) && next.node.None? && next.off == c.off + 1;
    QuantifierNeedsAtom(pat, cap, next);
  }

  lemma StepAlternate(pat: seq<char>, cap: nat, c: Cursor)
    requires Ready(pat, cap, c) && c.off < |pat| && pat[c.off] == '|'
    ensures Step(pat, cap, c) == Alternate(pat, cap, c)
  {
  }

  /** `?`, `+` and `*` after an atom give it the bounds (0,1), (1,unbounded)
      and (0,unbounded), and change nothing else. */
  lemma QuantifierBounds(pat: seq<char>, cap: nat, c: Cursor)
    requires Ready(pat, cap, c) && c.off < |pat| && pat[c.off] in "?+*" && c.node.Some?
    ensures Step(pat, cap, c).Success?
    ensures var r := Step(pat, cap, c).value; var n := c.node.value;
      && |r.nodes| == |c.nodes| && r.off == c.off + 1
      && (pat[c.off] == '?' ==> r.nodes[n].minimum == 0 && r.nodes[n].maximum == 1)
      && (pat[c.off] == '+' ==> r.nodes[n].minimum == 1 && r.nodes[n].maximum == Repetition.Unbounded)
      && (pat[c.off] == '*' ==> r.nodes[n].minimum == 0 && r.nodes[n].maximum == Repetition.Unbounded)
      && (forall k :: 0 <= k < |c.nodes| && k != n ==> r.nodes[k] == c.nodes[k])
  {
    assert Step(pat, cap, c) == Quantify(pat, cap, c);
  }

  /** `{n}` after an atom repeats it exactly n times. */
  lemma CountedExact(pat: seq<char>, cap: nat, c: Cursor, ds: seq<char>)
    requires Ready(pat, cap, c) && c.node.Some? && Repetition.AllDigits(ds)
    requires c.off + |ds| + 2 <= |pat| && pat[c.off..c.off + |ds| + 2] == "{" + ds + "}"
    ensures Step(pat, cap, c).Success?
    ensures var r := Step(pat, cap, c).value; var n := c.node.value;
      && r.off == c.off + |ds| + 2
      && r.nodes[n].minimum == Repetition.DecimalValue(ds) && r.nodes[n].maximum == Repetition.DecimalValue(ds)
  {
    var v := Repetition.DecimalValue(ds);
    CountedText(pat, c.off, ds);
    CountedRepeat(pat, cap, c, Repetition.Repeat(v, v, |ds| + 2));
  }

  /** A `{...}` that reads as a repetition gives the atom its bounds. */
  lemma CountedRepeat(pat: seq<char>, cap: nat, c: Cursor, rep: Repetition.Repeat)
    requires Ready(pat, cap, c) && c.off < |pat| && pat[c.off] == '{' && c.node.Some?
    requires Repetition.Minimax(pat[c.off..]) == Success(rep)
    ensures Step(pat, cap, c).Success?
    ensures var r := Step(pat, cap, c).value; var n := c.node.value;
      && r.off == c.off + rep.consumed
      && r.nodes[n].minimum == rep.minimum && r.nodes[n].maximum == rep.maximum
  {
    StepCounted(pat, cap, c);
  }

  /** The text `{n}` reads as exactly n repetitions. */
  lemma CountedText(pat: seq<char>, off: nat, ds: seq<char>)
    requires Repetition.AllDigits(ds)
    requires off + |ds| + 2 <= |pat| && pat[off..off + |ds| + 2] == "{" + ds + "}"
    ensures pat[off] == '{'
    ensures Repetition.Minimax(pat[off..])
         == Success(Repetition.Repeat(Repetition.DecimalValue(ds), Repetition.DecimalValue(ds), |ds| + 2))
  {
    var rest := pat[off + |ds| + 2..];
    CountedSplit(pat, off, ds);
    Repetition.MinimaxExact(ds, rest);
  }

  lemma CountedSplit(pat: seq<char>, off: nat, ds: seq<char>)
    requires off + |ds| + 2 <= |pat| && pat[off..off + |ds| + 2] == "{" + ds + "}"
    ensures pat[off] == '{'
    ensures pat[off..] == "{" + ds + "}" + pat[off + |ds| + 2..]
  {
    assert pat[off..] == pat[off..off + |ds| + 2] + pat[off + |ds| + 2..];
    assert pat[off] == pat[off..off + |ds| + 2][0];
  }

  lemma StepCounted(pat: seq<char>, cap: nat, c: Cursor)
    requires Ready(pat, cap, c) && c.off < |pat| && pat[c.off] == '{'
    ensures Step(pat, cap, c) == Counted(pat, cap, c)
  {
  }

  /** A `]` that does not close a bracket expression stops compilation. */
  lemma StrayBracketFails(pat: seq<char>, cap: nat, c: Cursor)
    requires Ready(pat, cap, c) && c.off < |pat| && pat[c.off] == ']'
    ensures Step(pat, cap, c) == Failure(StrayBracket)
    ensures CompileFrom(pat, cap, c) == Failure(StrayBracket)
  {
  }

  /** Compilation that succeeds uses the root and at most `cap` cells, and
      records a tree over the very pattern given. */
  lemma CompileSound(pat: seq<char>, cap: nat)
    requires Compile(pat, cap).Success?
    ensures var t := Compile(pat, cap).value;
      t.Valid() && t.nodes[0].typelen == 0 && t.nodes[0].parent.None? && cap >= 1
  {
    var t := Compile(pat, cap).value;
    assert NodeOk(t.nodes, t.pattern, 0);
  }
}
