/** The evaluator (`regevaluate` with `regnext` and `regmatch`): probes race
    over the compiled tree and the input together. The running probe walks
    down to a leaf, matches one input byte there and moves on; whenever it has
    met a node's minimum it leaves behind a clone that skips the rest of that
    node, and a memo of (node, offset) pairs keeps a second probe from
    repeating the work of the first.

    Probes are values here; the slot pool they live in is summarised by two
    counters, `top` (slots handed out so far) and `free` (slots back on the
    dead list). The concrete pool is modelled in the module `Arena`. */
module Evaluator {
  import opened Wrappers
  import opened PatternTree
  import CharClass

  /** Why an evaluation stopped without a verdict. `NullNode` is the source
      following a missing node (a descent into an empty group, or an ascent
      past the root with frames left); `Indeterminate` is a class whose
      outcome depends on an uninitialised byte; `OutOfFuel` is the step bound
      of this model. */
  datatype EvalError = OutOfMemory | NullNode | Indeterminate | OutOfFuel

  /** A saved descent: the container's occurrence count and the input offset
      when the probe went down into it. */
  datatype Frame = Frame(occurrence: int, off: nat)

  /** A probe: the node it is on, how many times it has entered that node, its
      descent stack (innermost frame first) and its offset in the input. */
  datatype Probe = Probe(node: nat, occurrence: int, frames: seq<Frame>, off: nat)

  /** The running probe, the queue of waiting probes (head first), the memo
      and the slot counters. */
  datatype Machine = Machine(probe: Probe, queue: seq<Probe>, memo: set<nat>, top: nat, free: nat)

  /** What one pass of the inner loop leads to: the probe goes on, it dies
      (and the next queued probe takes over), the input is accepted, or the
      evaluation stops. */
  datatype Outcome = Running(m: Machine) | Dead(m: Machine) | Accepted(m: Machine) | Stopped(error: EvalError)

  // ------------------------------------------------------------------ memo

  /** The memo index of node `node` at input offset `off`, for an input of
      `amt` bytes: one row of `amt + 1` offsets per node. */
  function Key(node: nat, off: nat, amt: nat): (k: nat)
    ensures off <= amt ==> k / (amt + 1) == node && k % (amt + 1) == off
  {
    KeyDecodes(node, off, amt);
    node * (amt + 1) + off
  }

  lemma KeyDecodes(node: nat, off: nat, amt: nat)
    ensures off <= amt ==> (node * (amt + 1) + off) / (amt + 1) == node
    ensures off <= amt ==> (node * (amt + 1) + off) % (amt + 1) == off
  {
    if off <= amt {
      DivUnique(node * (amt + 1) + off, amt + 1, node, off);
    }
  }

  /** Euclidean division has one quotient and one remainder. */
  lemma DivUnique(k: int, d: int, q: int, r: int)
    requires d > 0 && 0 <= r < d && k == q * d + r
    ensures k / d == q && k % d == r
  {
    var q2, r2 := k / d, k % d;
    assert k == q2 * d + r2 && 0 <= r2 < d;
    if q2 < q {
      assert (q2 + 1) * d == q2 * d + d;
      MulLe(q2 + 1, q, d);
      assert false;
    } else if q2 > q {
      assert (q + 1) * d == q * d + d;
      MulLe(q + 1, q2, d);
      assert false;
    }
  }

  lemma MulLe(a: int, b: int, c: int)
    requires a <= b && c >= 0
    ensures a * c <= b * c
  {
    assert b * c - a * c == (b - a) * c;
  }

  /** Distinct (node, offset) pairs never share a memo bit. */
  lemma KeyInjective(n1: nat, o1: nat, n2: nat, o2: nat, amt: nat)
    requires o1 <= amt && o2 <= amt && Key(n1, o1, amt) == Key(n2, o2, amt)
    ensures n1 == n2 && o1 == o2
  {
  }

  /** The memo holds one bit per node and offset, and every key falls inside it. */
  lemma KeyBound(node: nat, off: nat, amt: nat, count: nat)
    requires node < count && off <= amt
    ensures Key(node, off, amt) < count * (amt + 1)
  {
    MulLe(node + 1, count, amt + 1);
  }

  // ---------------------------------------------------------------- memory

  /** The cells the compiled tree and the memo occupy: one per node, and one
      per memo bit. */
  function TreeCells(t: Tree, input: seq<char>): nat {
    |t.nodes| + |t.nodes| * (|input| + 1)
  }

  /** The slots a probe holds: its own and one per frame. */
  function Held(p: Probe): nat {
    1 + |p.frames|
  }

  function HeldAll(q: seq<Probe>): nat {
    if |q| == 0 then 0 else Held(q[0]) + HeldAll(q[1..])
  }

  predicate ProbeOk(t: Tree, input: seq<char>, p: Probe) {
    p.node < |t.nodes| && p.off <= |input|
  }

  /** What holds between passes: every probe is on a node and within the
      input, every memo key is inside the memo, every slot handed out is
      either held by a probe or dead, and the slots handed out fit beside the
      tree. */
  predicate Inv(t: Tree, input: seq<char>, cap: nat, m: Machine) {
    && ProbeOk(t, input, m.probe)
    && (forall k :: 0 <= k < |m.queue| ==> ProbeOk(t, input, m.queue[k]))
    && (forall k :: k in m.memo ==> k < |t.nodes| * (|input| + 1))
    && m.top == m.free + Held(m.probe) + HeldAll(m.queue)
    && TreeCells(t, input) + m.top <= cap
  }

  /** `k` consecutive `regprobe` calls: dead slots are reused first, and only
      fresh slots can run into the tree. */
  function Reserve(t: Tree, input: seq<char>, cap: nat, m: Machine, k: nat): (r: Result<Machine, EvalError>)
    requires TreeCells(t, input) + m.top <= cap
    ensures r.Failure? <==> k > m.free && TreeCells(t, input) + m.top + (k - m.free) > cap
    ensures r.Failure? ==> r.error == OutOfMemory
    ensures r.Success? ==> r.value.top - r.value.free == m.top - m.free + k
    ensures r.Success? ==> TreeCells(t, input) + r.value.top <= cap && r.value.top >= m.top
    ensures r.Success? ==> r.value == m.(top := r.value.top, free := r.value.free)
  {
    if k <= m.free then Success(m.(free := m.free - k))
    else if TreeCells(t, input) + m.top + (k - m.free) <= cap then Success(m.(top := m.top + (k - m.free), free := 0))
    else Failure(OutOfMemory)
  }

  // ----------------------------------------------------------------- moves

  /** The popping half of `regnext`: frames are popped, each one restoring
      the occurrence count it saved and sending the probe to the parent node,
      until the probe lands on a group; landing on an alternative pops again.
      `None` means the stack ran out. */
  function Ascend(t: Tree, p: Probe): (r: Result<Option<Probe>, EvalError>)
    requires t.Valid() && p.node < |t.nodes|
    ensures |p.frames| == 0 ==> r == Success(None)
    ensures r.Failure? ==> r.error == NullNode
    ensures r.Success? && r.value.Some? ==> var q := r.value.value; var popped := |p.frames| - |q.frames|;
      && 0 < popped <= |p.frames|
      && q.frames == p.frames[popped..]
      && q.occurrence == p.frames[popped - 1].occurrence
      && q.off == p.off
      && q.node < |t.nodes| && t.nodes[q.node].typelen == 0
    decreases |p.frames|
  {
    if |p.frames| == 0 then Success(None)
    else
      assert NodeOk(t.nodes, t.pattern, p.node);
      var f := p.frames[0];
      match t.nodes[p.node].parent
      case None => if |p.frames| == 1 then Success(None) else Failure(NullNode)
      case Some(u) =>
        assert NodeOk(t.nodes, t.pattern, u);
        var q := p.(node := u, occurrence := f.occurrence, frames := p.frames[1..]);
        if t.nodes[u].typelen < 0 then Ascend(t, q) else Success(Some(q))
  }

  /** `regnext`: to the next sibling, starting its count afresh, or else up. */
  function Next(t: Tree, p: Probe): (r: Result<Option<Probe>, EvalError>)
    requires t.Valid() && p.node < |t.nodes|
    ensures r.Failure? ==> r.error == NullNode
    ensures r.Success? && r.value.Some? ==> var q := r.value.value;
      && q.node < |t.nodes| && q.off == p.off && |q.frames| <= |p.frames|
      && q.frames == p.frames[|p.frames| - |q.frames|..]
    ensures t.nodes[p.node].next.Some? ==> r == Success(Some(p.(node := t.nodes[p.node].next.value, occurrence := 0)))
  {
    match t.nodes[p.node].next
    case Some(s) =>
      assert NodeOk(t.nodes, t.pattern, p.node);
      Success(Some(p.(node := s, occurrence := 0)))
    case None => Ascend(t, p)
  }

  /** `regmatch`: a leaf tests the byte at the probe's offset; nothing matches
      past the end of the input. A leaf whose text starts with `.` matches any
      byte, one starting with `[` tests its class (a class with no members
      matches nothing), any other compares the byte with its first byte. */
  function Match(t: Tree, input: seq<char>, p: Probe): (r: Result<bool, EvalError>)
    requires t.Valid() && p.node < |t.nodes| && t.nodes[p.node].typelen > 0 && p.off <= |input|
    ensures p.off == |input| ==> r == Success(false)
    ensures r.Failure? ==> r.error == Indeterminate && LeafText(t, p.node)[0] == '['
    ensures r == Success(true) ==> p.off < |input|
  {
    if p.off == |input| then Success(false)
    else
      var text := LeafText(t, p.node);
      var tst := input[p.off];
      if text[0] == '.' then Success(true)
      else if text[0] == '[' then
        if |text| > 2 then
          match CharClass.Filter(text[1..|text| - 1], tst)
          case None => Failure(Indeterminate)
          case Some(b) => Success(b)
        else Success(false)
      else Success(tst == text[0])
  }

  // ----------------------------------------------------------------- steps

  /** A probe that has used up its node: it moves on, or, with the tree
      exhausted, accepts at the end of the input and dies anywhere else. The
      frames popped go to the dead list. */
  function Finish(t: Tree, input: seq<char>, cap: nat, m: Machine): (o: Outcome)
    requires t.Valid() && Inv(t, input, cap, m)
    ensures o.Running? || o.Dead? ==> Inv(t, input, cap, o.m) && o.m.memo == m.memo && o.m.queue == m.queue
    ensures o.Running? || o.Dead? ==> o.m.probe.off == m.probe.off
    ensures o.Accepted? <==> Next(t, m.probe) == Success(None) && m.probe.off == |input|
    ensures o.Accepted? ==> o.m == m
  {
    match Next(t, m.probe)
    case Failure(e) => Stopped(e)
    case Success(None) =>
      if m.probe.off == |input| then Accepted(m)
      else Dead(m.(probe := m.probe.(frames := []), free := m.free + |m.probe.frames|))
    case Success(Some(q)) =>
      Running(m.(probe := q, free := m.free + (|m.probe.frames| - |q.frames|)))
  }

  /** The probe goes down into a container, saving a frame, or tests the
      input at a leaf and steps past the byte when it matches. */
  function Proceed(t: Tree, input: seq<char>, cap: nat, m: Machine): (o: Outcome)
    requires t.Valid() && Inv(t, input, cap, m)
    ensures o.Running? || o.Dead? ==> Inv(t, input, cap, o.m) && o.m.memo == m.memo && o.m.queue == m.queue
    ensures o.Running? ==>
      (o.m.probe.off == m.probe.off
       || (o.m.probe.off == m.probe.off + 1 && t.nodes[m.probe.node].typelen > 0 && Match(t, input, m.probe) == Success(true)))
    ensures o.Dead? ==> o.m == m && t.nodes[m.probe.node].typelen > 0 && Match(t, input, m.probe) == Success(false)
    ensures o.Running? && t.nodes[m.probe.node].typelen <= 0 ==>
      o.m.probe.frames == [Frame(m.probe.occurrence, m.probe.off)] + m.probe.frames
      && o.m.probe.occurrence == 0 && Some(o.m.probe.node) == t.nodes[m.probe.node].child
    ensures !o.Accepted?
  {
    var p := m.probe;
    var n := t.nodes[p.node];
    if n.typelen <= 0 then
      match Reserve(t, input, cap, m, 1)
      case Failure(e) => Stopped(e)
      case Success(m1) =>
        match n.child
        case None => Stopped(NullNode)
        case Some(c) =>
          assert NodeOk(t.nodes, t.pattern, p.node);
          Running(m1.(probe := Probe(c, 0, [Frame(p.occurrence, p.off)] + p.frames, p.off)))
    else
      match Match(t, input, p)
      case Failure(e) => Stopped(e)
      case Success(true) => Running(m.(probe := p.(off := p.off + 1)))
      case Success(false) => Dead(m)
  }

  /** This pass counts the probe beyond its node's minimum, so the memo
      decides whether it may go on. */
  predicate Gated(t: Tree, m: Machine)
    requires m.probe.node < |t.nodes|
  {
    var n := t.nodes[m.probe.node];
    m.probe.occurrence != n.maximum && m.probe.occurrence + 1 > n.minimum
  }

  /** The probe's memo key. */
  function KeyOf(input: seq<char>, p: Probe): nat {
    Key(p.node, p.off, |input|)
  }

  /** The clone left behind at a gate: same node, offset and descent stack,
      with its count at the node's maximum, so that it moves on past the node. */
  function Fork(t: Tree, p: Probe): (c: Probe)
    requires p.node < |t.nodes|
    ensures c.node == p.node && c.off == p.off && c.frames == p.frames
    ensures c.occurrence == t.nodes[p.node].maximum
  {
    p.(occurrence := t.nodes[p.node].maximum)
  }

  /** The probe enters its node once more. Beyond the node's minimum, the
      (node, offset) pair must be new to the memo, or the probe dies; it is
      then recorded, and a clone that skips the rest of this node goes to the
      front of the queue. */
  function Enter(t: Tree, input: seq<char>, cap: nat, m: Machine): (o: Outcome)
    requires t.Valid() && Inv(t, input, cap, m) && m.probe.occurrence != t.nodes[m.probe.node].maximum
    ensures o.Running? || o.Dead? ==> Inv(t, input, cap, o.m)
    ensures !o.Accepted?
    ensures Gated(t, m) && KeyOf(input, m.probe) in m.memo ==>
      o.Dead? && o.m.memo == m.memo && o.m.queue == m.queue
    ensures (o.Running? || o.Dead?) && Gated(t, m) && KeyOf(input, m.probe) !in m.memo ==>
      && o.m.memo == m.memo + {KeyOf(input, m.probe)}
      && o.m.queue == [Fork(t, m.probe)] + m.queue
    ensures (o.Running? || o.Dead?) && !Gated(t, m) ==> o.m.memo == m.memo && o.m.queue == m.queue
    ensures o.Running? ==>
      (o.m.probe.off == m.probe.off
       || (o.m.probe.off == m.probe.off + 1 && t.nodes[m.probe.node].typelen > 0 && Match(t, input, m.probe) == Success(true)))
  {
    var p := m.probe;
    var n := t.nodes[p.node];
    var key := Key(p.node, p.off, |input|);
    var occ := p.occurrence + 1;
    if occ > n.minimum && key in m.memo then Dead(m.(probe := p.(occurrence := occ)))
    else
      KeyBound(p.node, p.off, |input|, |t.nodes|);
      var m1 := m.(probe := p.(occurrence := occ), memo := if occ > n.minimum then m.memo + {key} else m.memo);
      if occ > n.minimum then
        match Reserve(t, input, cap, m1, Held(m1.probe))
        case Failure(e) => Stopped(e)
        case Success(m2) =>
          Proceed(t, input, cap, m2.(queue := [Fork(t, m2.probe)] + m2.queue))
      else Proceed(t, input, cap, m1)
  }

  /** One pass of the inner loop of `regevaluate`. */
  function Step(t: Tree, input: seq<char>, cap: nat, m: Machine): (o: Outcome)
    requires t.Valid() && Inv(t, input, cap, m)
    ensures o.Running? || o.Dead? ==> Inv(t, input, cap, o.m)
    // acceptance: node used up, nothing left to move to, input consumed
    ensures o.Accepted? <==> Accepting(t, input, m)
    ensures o.Accepted? ==> o.m == m
    // the memo only grows, and only by the probe's own key
    ensures o.Running? || o.Dead? ==> m.memo <= o.m.memo <= m.memo + {KeyOf(input, m.probe)}
    ensures Gated(t, m) && KeyOf(input, m.probe) in m.memo ==> o.Dead? && o.m.memo == m.memo
    ensures (o.Running? || o.Dead?) && Gated(t, m) ==> KeyOf(input, m.probe) in o.m.memo
    // a clone is made only at a gate, and waits at the front of the queue
    ensures (o.Running? || o.Dead?) && Gated(t, m) && KeyOf(input, m.probe) !in m.memo ==>
      o.m.queue == [Fork(t, m.probe)] + m.queue
    ensures (o.Running? || o.Dead?) && !Gated(t, m) ==> o.m.queue == m.queue
    // the input offset moves only past a byte a leaf has matched
    ensures o.Running? ==>
      (o.m.probe.off == m.probe.off
       || (o.m.probe.off == m.probe.off + 1 && t.nodes[m.probe.node].typelen > 0 && Match(t, input, m.probe) == Success(true)))
  {
    if m.probe.occurrence == t.nodes[m.probe.node].maximum then Finish(t, input, cap, m)
    else Enter(t, input, cap, m)
  }

  /** `regkill` followed by taking the next probe off the queue. With the
      queue empty, every slot handed out is dead again. */
  function Retire(t: Tree, input: seq<char>, cap: nat, m: Machine): (r: Option<Machine>)
    requires Inv(t, input, cap, m)
    ensures r.Some? ==> Inv(t, input, cap, r.value) && r.value.memo == m.memo
    ensures r.None? <==> |m.queue| == 0
    ensures r.Some? ==> r.value.probe == m.queue[0] && r.value.queue == m.queue[1..]
    ensures r.None? ==> m.top == m.free + Held(m.probe)
  {
    if |m.queue| == 0 then None
    else Some(m.(probe := m.queue[0], queue := m.queue[1..], free := m.free + Held(m.probe)))
  }

  /** The set-up of `regevaluate`: room for the memo, then the first probe on
      the root, from an empty pool. */
  function Launch(t: Tree, input: seq<char>, cap: nat): (r: Result<Machine, EvalError>)
    requires t.Valid()
    ensures r.Failure? <==> TreeCells(t, input) + 1 > cap
    ensures r.Failure? ==> r.error == OutOfMemory
    ensures r.Success? ==> Inv(t, input, cap, r.value) && r.value.memo == {} && r.value.queue == []
    ensures r.Success? ==> r.value.probe == Probe(0, 0, [], 0) && r.value.top == 1 && r.value.free == 0
  {
    if TreeCells(t, input) > cap then Failure(OutOfMemory)
    else if TreeCells(t, input) + 1 > cap then Failure(OutOfMemory)
    else Success(Machine(Probe(0, 0, [], 0), [], {}, 1, 0))
  }

  /** A probe accepts when it has used up its node, there is nothing left
      of the tree to move to, and it stands at the end of the input. */
  predicate Accepting(t: Tree, input: seq<char>, m: Machine)
    requires t.Valid() && m.probe.node < |t.nodes|
  {
    && m.probe.occurrence == t.nodes[m.probe.node].maximum
    && Next(t, m.probe) == Success(None)
    && m.probe.off == |input|
  }

  /** `regevaluate`, bounded by `fuel` passes of the inner loop. `Success(true)`
      is a match, `Success(false)` a run queue exhausted; `last` is the state
      the verdict was reached in. */
  method Evaluate(t: Tree, input: seq<char>, cap: nat, fuel: nat) returns (v: Result<bool, EvalError>, last: Machine, ghost run: seq<Machine>)
    requires t.Valid()
    ensures v == Success(true) ==> Inv(t, input, cap, last) && Accepting(t, input, last)
    ensures v == Success(false) ==> Inv(t, input, cap, last) && |last.queue| == 0
    ensures TreeCells(t, input) + 1 > cap ==> v == Failure(OutOfMemory)
    ensures v.Success? ==> |run| > 0 && IsRun(t, input, cap, run) && Launch(t, input, cap) == Success(run[0])
    ensures v == Success(true) ==>
      (|run| > 0 && Inv(t, input, cap, run[|run| - 1])
       && Step(t, input, cap, run[|run| - 1]) == Accepted(last))
    ensures v == Success(false) ==>
      (|run| > 0 && Inv(t, input, cap, run[|run| - 1])
       && Step(t, input, cap, run[|run| - 1]) == Dead(last) && Retire(t, input, cap, last).None?)
    ensures v.Success? ==> |run| > 0 && IsRun(t, input, cap, run) && PassesOnce(t, input, cap, run)
    ensures v.Failure? && TreeCells(t, input) + 1 <= cap ==>
      (|run| > 0 && IsRun(t, input, cap, run) && Launch(t, input, cap) == Success(run[0])
       && (v.error == OutOfFuel ==> |run| == fuel + 1)
       && (v.error != OutOfFuel ==> Inv(t, input, cap, run[|run| - 1]) && Step(t, input, cap, run[|run| - 1]) == Stopped(v.error)))
  {
    var launched := Launch(t, input, cap);
    if launched.Failure? {
      return Failure(OutOfMemory), Machine(Probe(0, 0, [], 0), [], {}, 0, 0), [];
    }
    var m := launched.value;
    run := [m];
    var budget := fuel;
    while budget > 0
      invariant Inv(t, input, cap, m)
      invariant |run| > 0 && IsRun(t, input, cap, run) && run[0] == launched.value && run[|run| - 1] == m
      invariant |run| + budget == fuel + 1
      decreases budget
    {
      budget := budget - 1;
      var o := Step(t, input, cap, m);
      match o
      case Stopped(e) =>
        return Failure(e), m, run;
      case Accepted(a) =>
        RunPrunes(t, input, cap, run);
        return Success(true), a, run;
      case Running(n) =>
        RunExtend(t, input, cap, run, n);
        m := n;
        run := run + [n];
      case Dead(d) =>
        var next := Retire(t, input, cap, d);
        if next.None? {
          RunPrunes(t, input, cap, run);
          return Success(false), d, run;
        }
        RunExtend(t, input, cap, run, next.value);
        m := next.value;
        run := run + [m];
    }
    return Failure(OutOfFuel), m, run;
  }

  /** Along the run, a probe reaching the gate at a key an earlier gated
      probe reached dies there: each key passes the gate at most once. */
  predicate PassesOnce(t: Tree, input: seq<char>, cap: nat, run: seq<Machine>)
    requires t.Valid() && IsRun(t, input, cap, run)
  {
    forall i, j ::
      (0 <= i < j < |run| && Gated(t, run[i]) && Gated(t, run[j])
       && KeyOf(input, run[i].probe) == KeyOf(input, run[j].probe))
      ==> Step(t, input, cap, run[j]).Dead?
  }

  lemma RunPrunes(t: Tree, input: seq<char>, cap: nat, run: seq<Machine>)
    requires t.Valid() && IsRun(t, input, cap, run)
    ensures PassesOnce(t, input, cap, run)
  {
    forall i, j | 0 <= i < j < |run| && Gated(t, run[i]) && Gated(t, run[j])
      && KeyOf(input, run[i].probe) == KeyOf(input, run[j].probe)
      ensures Step(t, input, cap, run[j]).Dead?
    {
      PruneOnce(t, input, cap, run, i, j);
    }
  }

  /** A machine that follows the last of a run extends it. */
  lemma RunExtend(t: Tree, input: seq<char>, cap: nat, run: seq<Machine>, b: Machine)
    requires t.Valid() && |run| > 0 && IsRun(t, input, cap, run)
    requires Inv(t, input, cap, b) && Follows(t, input, cap, run[|run| - 1], b)
    ensures IsRun(t, input, cap, run + [b])
  {
    var ext := run + [b];
    forall i | 0 <= i < |ext| - 1
      ensures Follows(t, input, cap, ext[i], ext[i + 1])
    {
      if i < |run| - 1 {
        assert ext[i] == run[i] && ext[i + 1] == run[i + 1];
      }
    }
  }

  // ------------------------------------------------------------------ runs

  /** `b` follows `a` in an evaluation: the probe went on, or it died and the
      next queued probe took over. */
  predicate Follows(t: Tree, input: seq<char>, cap: nat, a: Machine, b: Machine)
    requires t.Valid() && Inv(t, input, cap, a)
  {
    var o := Step(t, input, cap, a);
    || (o.Running? && o.m == b)
    || (o.Dead? && Retire(t, input, cap, o.m) == Some(b))
  }

  /** A sequence of states each following the one before. */
  predicate IsRun(t: Tree, input: seq<char>, cap: nat, ms: seq<Machine>)
    requires t.Valid()
  {
    && (forall i :: 0 <= i < |ms| ==> Inv(t, input, cap, ms[i]))
    && (forall i :: 0 <= i < |ms| - 1 ==> Follows(t, input, cap, ms[i], ms[i + 1]))
  }

  /** The memo never forgets. */
  lemma {:induction false} MemoGrows(t: Tree, input: seq<char>, cap: nat, ms: seq<Machine>, i: nat, j: nat)
    requires t.Valid() && IsRun(t, input, cap, ms) && i <= j < |ms|
    ensures ms[i].memo <= ms[j].memo
    decreases j - i
  {
    if i < j {
      MemoGrows(t, input, cap, ms, i + 1, j);
      assert Follows(t, input, cap, ms[i], ms[i + 1]);
      FollowsMemo(t, input, cap, ms[i], ms[i + 1]);
    }
  }

  /** One step of a run keeps every memo entry. */
  lemma FollowsMemo(t: Tree, input: seq<char>, cap: nat, a: Machine, b: Machine)
    requires t.Valid() && Inv(t, input, cap, a) && Follows(t, input, cap, a, b)
    ensures a.memo <= b.memo
  {
    var o := Step(t, input, cap, a);
    if o.Dead? {
      assert Retire(t, input, cap, o.m) == Some(b);
    }
  }

  /** Prune-once: after a probe has gone through the gate of a node at some
      offset, every later probe that reaches the gate of that node at that
      offset dies there. */
  lemma PruneOnce(t: Tree, input: seq<char>, cap: nat, ms: seq<Machine>, i: nat, j: nat)
    requires t.Valid() && IsRun(t, input, cap, ms) && i < j < |ms|
    requires Gated(t, ms[i]) && Gated(t, ms[j]) && KeyOf(input, ms[i].probe) == KeyOf(input, ms[j].probe)
    ensures KeyOf(input, ms[j].probe) in ms[j].memo
    ensures Step(t, input, cap, ms[j]).Dead?
  {
    assert Follows(t, input, cap, ms[i], ms[i + 1]);
    assert KeyOf(input, ms[i].probe) in ms[i + 1].memo;
    MemoGrows(t, input, cap, ms, i + 1, j);
  }

  // --------------------------------------------------------------- leaves

  /** A leaf whose text begins with `.` matches every byte of the input. */
  lemma MatchWildcard(t: Tree, input: seq<char>, p: Probe)
    requires t.Valid() && p.node < |t.nodes| && t.nodes[p.node].typelen > 0 && p.off < |input|
    requires LeafText(t, p.node)[0] == '.'
    ensures Match(t, input, p) == Success(true)
  {
  }

  /** A one-byte leaf of any other byte matches exactly that byte; an escaped
      `[` compiles to the one-byte leaf `[`, which matches nothing. */
  lemma MatchLiteral(t: Tree, input: seq<char>, p: Probe)
    requires t.Valid() && p.node < |t.nodes| && t.nodes[p.node].typelen == 1 && p.off <= |input|
    requires LeafText(t, p.node)[0] != '.'
    ensures LeafText(t, p.node)[0] != '[' ==>
      Match(t, input, p) == Success(p.off < |input| && input[p.off] == LeafText(t, p.node)[0])
    ensures LeafText(t, p.node)[0] == '[' ==> Match(t, input, p) == Success(false)
  {
  }

  /** The digit shorthand `\d` matches exactly the decimal digits. */
  lemma MatchDigits(t: Tree, input: seq<char>, p: Probe)
    requires t.Valid() && p.node < |t.nodes| && t.nodes[p.node].typelen > 0 && t.nodes[p.node].text == Builtin('d')
    requires p.off < |input|
    ensures Match(t, input, p) == Success('0' <= input[p.off] <= '9')
  {
    assert NodeOk(t.nodes, t.pattern, p.node);
    var text := LeafText(t, p.node);
    assert text == "[0-9]";
    var ms := [CharClass.Range('0', '9')];
    assert CharClass.SpellAll(ms) == "0-9";
    assert text[1..|text| - 1] == "0-9";
    CharClass.FilterPlainList(ms, [], input[p.off]);
    assert CharClass.SpellAll(ms) + [] == "0-9";
    assert CharClass.AnyCovers(ms, input[p.off]) <==> CharClass.Covers(ms[0], input[p.off]);
  }

  /** A class leaf tests its interior with the class scanner. */
  lemma MatchClass(t: Tree, input: seq<char>, p: Probe)
    requires t.Valid() && p.node < |t.nodes| && t.nodes[p.node].typelen > 2 && p.off < |input|
    requires LeafText(t, p.node)[0] == '['
    ensures var text := LeafText(t, p.node);
      Match(t, input, p)
      == match CharClass.Filter(text[1..|text| - 1], input[p.off])
         case None => Failure(Indeterminate)
         case Some(b) => Success(b)
  {
  }

  /** A `\c` leaf as written: a byte above `.` matches when it is a name
      character, and at `.`, `-` or below the outcome is indeterminate. A
      `\C` leaf matches every byte, whatever the uninitialised low end of
      its leading range holds. */
  lemma MatchNameClass(t: Tree, input: seq<char>, p: Probe)
    requires t.Valid() && p.node < |t.nodes| && t.nodes[p.node].typelen > 0
    requires t.nodes[p.node].text == Builtin('c') || t.nodes[p.node].text == Builtin('C')
    requires p.off < |input|
    ensures t.nodes[p.node].text == Builtin('c') ==>
      Match(t, input, p) == if input[p.off] <= '.' then Failure(Indeterminate) else Success(CharClass.NameChar(input[p.off]))
    ensures t.nodes[p.node].text == Builtin('C') ==>
      Match(t, input, p) == Success(true)
  {
    var c := t.nodes[p.node].text.letter;
    assert LeafText(t, p.node) == CharClass.ShorthandClass(c);
    CharClass.NameClassInterior(c);
    MatchClass(t, input, p);
    if c == 'c' {
      CharClass.NameWordAsWritten(input[p.off]);
    } else {
      CharClass.NameNonWordAsWritten(input[p.off]);
    }
  }

  /** A class leaf holding one escaped letter tests the byte as
      `regfilterspcl` does as written; in particular `[\d]` matches `[`
      besides the digits. */
  lemma MatchEscapedLetter(t: Tree, input: seq<char>, p: Probe, c: char)
    requires t.Valid() && p.node < |t.nodes| && t.nodes[p.node].typelen > 0
    requires LeafText(t, p.node) == ['[', '\\', c, ']'] && CharClass.IsLetter(c)
    requires p.off < |input|
    ensures CharClass.FilterEscapeAsWritten(c, input[p.off]).Some?
    ensures Match(t, input, p) == Success(CharClass.FilterEscapeAsWritten(c, input[p.off]).value)
    ensures c == 'd' ==> Match(t, input, p) == Success(input[p.off] == '[' || '0' <= input[p.off] <= '9')
  {
    var text := LeafText(t, p.node);
    assert text[1..|text| - 1] == ['\\', c];
    CharClass.FilterEscaped(c, input[p.off]);
    if CharClass.ClassEscape(c) {
      CharClass.FilterEscapeAsWrittenClasses(input[p.off]);
    } else {
      CharClass.FilterEscapeLiteral(c, input[p.off]);
    }
    MatchClass(t, input, p);
  }
}
