/** The probe pool (`regprobe`, `regclone`, `regkill`, and the frame pushes
    and pops of the evaluator): slots taken from the top of the work area,
    addressed by 1-based index counted down from its end, with 0 as the
    empty link. A slot holds either a probe or one frame of a probe's
    descent stack; `next` chains frames below a probe, probes in the queue,
    and slots on the dead list alike.

    The pool's counters are the evaluator's: `|slots|` is `top` (slots ever
    handed out) and the length of the dead list is `free`. */
module Arena {
  import opened Wrappers

  datatype Slot = Slot(node: nat, occurrence: int, stack: nat, next: nat, off: nat)

  /** Slot `i` is `slots[i - 1]`; `dead` heads the list of released slots. */
  datatype Pool = Pool(slots: seq<Slot>, dead: nat)

  /** A freshly handed-out slot is cleared. */
  const Blank: Slot := Slot(0, 0, 0, 0, 0)

  predicate Valid(p: Pool, i: nat) {
    1 <= i <= |p.slots|
  }

  function At(p: Pool, i: nat): Slot
    requires Valid(p, i)
  {
    p.slots[i - 1]
  }

  function Put(p: Pool, i: nat, s: Slot): (q: Pool)
    requires Valid(p, i)
    ensures |q.slots| == |p.slots| && q.dead == p.dead && At(q, i) == s
    ensures forall k :: Valid(p, k) && k != i ==> At(q, k) == At(p, k)
  {
    p.(slots := p.slots[i - 1 := s])
  }

  predicate Distinct(xs: seq<nat>) {
    forall i, j :: 0 <= i < j < |xs| ==> xs[i] != xs[j]
  }

  predicate Apart(xs: seq<nat>, ys: seq<nat>) {
    forall k :: k in xs ==> k !in ys
  }

  /** `xs` lists, in order, the slots linked by `next` from `head`, ending at
      the empty link. */
  predicate ListFrom(p: Pool, head: nat, xs: seq<nat>) {
    && (forall k :: 0 <= k < |xs| ==> Valid(p, xs[k]))
    && (|xs| == 0 <==> head == 0)
    && (|xs| > 0 ==> xs[0] == head && At(p, xs[|xs| - 1]).next == 0)
    && (forall k :: 0 <= k < |xs| - 1 ==> At(p, xs[k]).next == xs[k + 1])
    && Distinct(xs)
  }

  /** A list survives any change that leaves the links of its members alone. */
  lemma ListKept(p: Pool, q: Pool, head: nat, xs: seq<nat>)
    requires ListFrom(p, head, xs) && |p.slots| <= |q.slots|
    requires forall k :: k in xs ==> At(q, k).next == At(p, k).next
    ensures ListFrom(q, head, xs)
  {
    forall k | 0 <= k < |xs| - 1
      ensures At(q, xs[k]).next == xs[k + 1]
    {
      assert xs[k] in xs;
    }
    if |xs| > 0 {
      assert xs[|xs| - 1] in xs;
    }
  }

  /** A list's tail is the list from its head's successor. */
  lemma ListTail(p: Pool, head: nat, xs: seq<nat>)
    requires ListFrom(p, head, xs) && |xs| > 0
    ensures ListFrom(p, At(p, head).next, xs[1..])
    ensures head !in xs[1..]
  {
    if |xs| > 1 {
      assert Valid(p, xs[1]);
    }
    forall j | 0 <= j < |xs| - 1
      ensures xs[1..][j] != head
    {
      assert xs[1..][j] == xs[j + 1];
    }
  }

  // ------------------------------------------------------------ allocation

  /** `regprobe`: the head of the dead list if there is one, else a fresh slot
      from the top, cleared either way; `room` is how many slots fit beside
      the tree and the memo. As in the source the room check is made in both
      cases, and it can only fail for a fresh slot. */
  function Alloc(p: Pool, room: nat): (r: Option<(Pool, nat)>)
    requires |p.slots| <= room && (p.dead != 0 ==> Valid(p, p.dead))
    ensures p.dead != 0 ==> r.Some?
    ensures p.dead == 0 ==> (r.Some? <==> |p.slots| + 1 <= room)
    ensures r.Some? ==> var (q, i) := r.value;
      && Valid(q, i) && |q.slots| <= room && At(q, i) == Blank
      && (p.dead != 0 ==> i == p.dead && |q.slots| == |p.slots| && q.dead == At(p, i).next)
      && (p.dead == 0 ==> i == |p.slots| + 1 && |q.slots| == i && q.dead == 0)
      && (forall k :: Valid(p, k) && k != i ==> At(q, k) == At(p, k))
  {
    var (q, i) := if p.dead != 0 then (p.(dead := At(p, p.dead).next), p.dead)
                  else (p.(slots := p.slots + [Blank]), |p.slots| + 1);
    if |q.slots| > room then None
    else Some((Put(q, i, Blank), i))
  }

  /** Allocation takes the first dead slot and leaves the rest of the dead
      list in place; only an empty dead list makes the pool grow. */
  lemma AllocFromDead(p: Pool, room: nat, dead: seq<nat>)
    requires |p.slots| <= room && ListFrom(p, p.dead, dead)
    requires |dead| > 0 || |p.slots| + 1 <= room
    ensures Alloc(p, room).Some?
    ensures var (q, i) := Alloc(p, room).value;
      && ListFrom(q, q.dead, if |dead| > 0 then dead[1..] else [])
      && (|dead| > 0 ==> i !in dead[1..])
      && (|dead| > 0 ==> i == dead[0] && |q.slots| == |p.slots|)
      && (|dead| == 0 ==> i == |p.slots| + 1 && |q.slots| == |p.slots| + 1)
  {
    var (q, i) := Alloc(p, room).value;
    if |dead| > 0 {
      ListTail(p, p.dead, dead);
      ListKept(p, q, q.dead, dead[1..]);
    }
  }

  // --------------------------------------------------------------- release

  /** Puts slot `i` at the head of the dead list. */
  function Release(p: Pool, i: nat): (q: Pool)
    requires Valid(p, i)
    ensures q.dead == i && |q.slots| == |p.slots| && At(q, i).next == p.dead
    ensures At(q, i) == At(p, i).(next := p.dead)
    ensures forall k :: Valid(p, k) && k != i ==> At(q, k) == At(p, k)
  {
    Put(p, i, At(p, i).(next := p.dead)).(dead := i)
  }

  lemma ReleaseList(p: Pool, i: nat, dead: seq<nat>)
    requires Valid(p, i) && ListFrom(p, p.dead, dead) && i !in dead
    ensures ListFrom(Release(p, i), i, [i] + dead)
  {
    var q := Release(p, i);
    ListKept(p, q, p.dead, dead);
    var ys := [i] + dead;
    forall k | 0 <= k < |ys| - 1
      ensures At(q, ys[k]).next == ys[k + 1]
    {
      if k > 0 { assert ys[k] == dead[k - 1]; }
    }
  }

  function Reverse(xs: seq<nat>): (r: seq<nat>)
    ensures |r| == |xs|
    ensures forall k :: 0 <= k < |xs| ==> r[k] == xs[|xs| - 1 - k]
  {
    if |xs| == 0 then [] else Reverse(xs[1..]) + [xs[0]]
  }

  /** The loop of `regkill` over a descent stack: each frame in turn goes to
      the head of the dead list, its successor read before its link is reused. */
  function ReleaseChain(p: Pool, idx: nat, xs: seq<nat>): (q: Pool)
    requires ListFrom(p, idx, xs)
    ensures |q.slots| == |p.slots|
    ensures forall k :: Valid(p, k) && k !in xs ==> At(q, k) == At(p, k)
    ensures forall k :: k in xs ==> At(q, k) == At(p, k).(next := At(q, k).next)
    decreases |xs|
  {
    if idx == 0 then p
    else
      var nxt := At(p, idx).next;
      ListTail(p, idx, xs);
      var q := Release(p, idx);
      ListKept(p, q, nxt, xs[1..]);
      ReleaseChain(q, nxt, xs[1..])
  }

  /** Releasing a chain pushes its slots onto the dead list in reverse order. */
  lemma {:induction false} ReleaseChainList(p: Pool, idx: nat, xs: seq<nat>, dead: seq<nat>)
    requires ListFrom(p, idx, xs) && ListFrom(p, p.dead, dead) && Apart(xs, dead)
    ensures ListFrom(ReleaseChain(p, idx, xs), ReleaseChain(p, idx, xs).dead, Reverse(xs) + dead)
    decreases |xs|
  {
    if idx != 0 {
      var nxt := At(p, idx).next;
      ListTail(p, idx, xs);
      var q := Release(p, idx);
      assert xs[0] == idx;
      ReleaseList(p, idx, dead);
      ListKept(p, q, nxt, xs[1..]);
      assert Apart(xs[1..], [idx] + dead);
      ReleaseChainList(q, nxt, xs[1..], [idx] + dead);
      assert Reverse(xs[1..]) + ([idx] + dead) == Reverse(xs) + dead;
    } else {
      assert Reverse(xs) + dead == dead;
    }
  }

  /** `regkill`: the probe's slot, then each frame of its stack, goes to the
      dead list. */
  function Kill(p: Pool, probe: nat, xs: seq<nat>): (q: Pool)
    requires Valid(p, probe) && ListFrom(p, At(p, probe).stack, xs) && probe !in xs
    ensures |q.slots| == |p.slots|
    ensures forall k :: Valid(p, k) && k != probe && k !in xs ==> At(q, k) == At(p, k)
    ensures forall k :: k in [probe] + xs ==> At(q, k) == At(p, k).(next := At(q, k).next)
  {
    var q := Release(p, probe);
    ListKept(p, q, At(p, probe).stack, xs);
    ReleaseChain(q, At(q, probe).stack, xs)
  }

  /** After `regkill` the dead list starts with the probe's frames, innermost
      last, then the probe, then what was dead before; it grew by exactly the
      slots the probe held. */
  lemma KillList(p: Pool, probe: nat, xs: seq<nat>, dead: seq<nat>)
    requires Valid(p, probe) && ListFrom(p, At(p, probe).stack, xs) && probe !in xs
    requires ListFrom(p, p.dead, dead) && probe !in dead && Apart(xs, dead)
    ensures ListFrom(Kill(p, probe, xs), Kill(p, probe, xs).dead, Reverse(xs) + [probe] + dead)
    ensures |Reverse(xs) + [probe] + dead| == |dead| + 1 + |xs|
  {
    var q := Release(p, probe);
    ListKept(p, q, At(p, probe).stack, xs);
    ReleaseList(p, probe, dead);
    ApartCons(xs, probe, dead);
    ReleaseChainList(q, At(q, probe).stack, xs, [probe] + dead);
    ConsAssoc(Reverse(xs), probe, dead);
    assert Kill(p, probe, xs) == ReleaseChain(q, At(q, probe).stack, xs);
  }

  lemma ApartCons(xs: seq<nat>, i: nat, ys: seq<nat>)
    requires i !in xs && Apart(xs, ys)
    ensures Apart(xs, [i] + ys)
  {
  }

  lemma ConsAssoc(xs: seq<nat>, i: nat, ys: seq<nat>)
    ensures xs + ([i] + ys) == xs + [i] + ys
    ensures |xs + [i] + ys| == |ys| + 1 + |xs|
  {
  }

  // ----------------------------------------------------------------- clone

  /** The slots of a chain agree with those of another, link for link, apart
      from the `next` links, which belong to each chain. */
  predicate SameContents(p: Pool, xs: seq<nat>, q: Pool, ys: seq<nat>)
    requires forall k :: 0 <= k < |xs| ==> Valid(p, xs[k])
    requires forall k :: 0 <= k < |ys| ==> Valid(q, ys[k])
  {
    && |xs| == |ys|
    && forall k :: 0 <= k < |xs| ==> At(q, ys[k]).(next := 0) == At(p, xs[k]).(next := 0)
  }

  /** Where a chain copied below `last` hangs: from its `stack` for the first
      frame under a probe, from its `next` for a frame under a frame. */
  function Hook(s: Slot, first: bool): nat {
    if first then s.stack else s.next
  }

  function Hang(s: Slot, first: bool, i: nat): Slot {
    if first then s.(stack := i) else s.(next := i)
  }

  /** One pass of the loop of `regclone`: a slot from `regprobe` receives a
      whole copy of frame `src` and is hung below `last`. */
  function CopyOne(p: Pool, room: nat, src: nat, last: nat, first: bool): (r: Option<(Pool, nat)>)
    requires |p.slots| <= room && (p.dead != 0 ==> Valid(p, p.dead))
    requires Valid(p, src) && Valid(p, last) && src != p.dead && last != p.dead && src != last
    ensures r.None? <==> p.dead == 0 && |p.slots| + 1 > room
    ensures r.Some? ==> var (q, i) := r.value;
      && Valid(q, i) && |q.slots| <= room
      && (p.dead != 0 ==> i == p.dead && |q.slots| == |p.slots| && q.dead == At(p, i).next)
      && (p.dead == 0 ==> i == |p.slots| + 1 && |q.slots| == i && q.dead == 0)
      && At(q, i) == At(p, src)
      && At(q, last) == Hang(At(p, last), first, i)
      && (forall k :: Valid(p, k) && k != i && k != last ==> At(q, k) == At(p, k))
  {
    match Alloc(p, room)
    case None => None
    case Some((q, i)) =>
      var q1 := Put(q, i, At(q, src));
      Some((Put(q1, last, Hang(At(q1, last), first, i)), i))
  }

  /** The dead list without its first `n` slots. */
  function Drop(dead: seq<nat>, n: nat): seq<nat> {
    if n <= |dead| then dead[n..] else []
  }

  /** After one pass the rest of the chain and the rest of the dead list are
      intact, and the copy came off the dead list or from the top. */
  lemma CopyOneLists(p: Pool, room: nat, dead: seq<nat>, src: nat, xs: seq<nat>, last: nat, first: bool)
    requires |p.slots| <= room && ListFrom(p, p.dead, dead)
    requires ListFrom(p, src, xs) && Apart(xs, dead) && src != 0
    requires Valid(p, last) && last !in xs && last !in dead
    requires src != p.dead && last != p.dead && src != last
    requires CopyOne(p, room, src, last, first).Some?
    ensures var (q, i) := CopyOne(p, room, src, last, first).value;
      && ListFrom(q, q.dead, Drop(dead, 1))
      && ListFrom(q, At(q, src).next, xs[1..])
      && Apart(xs[1..], Drop(dead, 1))
      && i !in xs && i !in Drop(dead, 1)
      && (i in dead || |p.slots| < i)
      && (|dead| > 0 ==> i == dead[0]) && (|dead| == 0 ==> |q.slots| == |p.slots| + 1)
      && (forall k :: k in xs ==> At(q, k) == At(p, k))
  {
    var (q, i) := CopyOne(p, room, src, last, first).value;
    ListTail(p, src, xs);
    assert forall k :: k in xs[1..] ==> k in xs;
    if |dead| > 0 {
      ListTail(p, p.dead, dead);
      assert i in dead;
      assert forall k :: k in dead[1..] ==> k in dead;
    }
    assert i !in xs;
    ListKept(p, q, At(p, src).next, xs[1..]);
    if |dead| > 0 {
      ListKept(p, q, q.dead, dead[1..]);
    }
  }

  /** The loop of `regclone` over a descent stack: each frame is copied into
      a slot from `regprobe`, whole, and linked below the previous copy. */
  function CopyChain(p: Pool, room: nat, dead: seq<nat>, src: nat, xs: seq<nat>, last: nat, first: bool): (r: Option<(Pool, seq<nat>)>)
    requires |p.slots| <= room && ListFrom(p, p.dead, dead)
    requires ListFrom(p, src, xs) && Apart(xs, dead)
    requires Valid(p, last) && last !in xs && last !in dead
    decreases |xs|
  {
    if src == 0 then Some((p, []))
    else
      assert src in xs;
      match CopyOne(p, room, src, last, first)
      case None => None
      case Some((q, i)) =>
        CopyOneLists(p, room, dead, src, xs, last, first);
        match CopyChain(q, room, Drop(dead, 1), At(q, src).next, xs[1..], i, false)
        case None => None
        case Some((r, ys)) => Some((r, [i] + ys))
  }

  /** What copying the chain `xs` below `last` did, taking `p` to `q` with
      copies `ys`: the copies hang below `last` in order and repeat the
      frames' contents; they came off the dead list first and from the top
      after; no other slot changed. */
  ghost predicate Copied(p: Pool, room: nat, dead: seq<nat>, xs: seq<nat>, last: nat, first: bool, q: Pool, ys: seq<nat>)
    requires Valid(p, last) && forall k :: 0 <= k < |xs| ==> Valid(p, xs[k])
  {
    && |p.slots| <= |q.slots| <= room
    && CopiedLinks(p, xs, last, first, q, ys)
    && CopiedSlots(p, dead, xs, last, q, ys)
  }

  /** The copies hang below `last` in order and repeat the frames' contents. */
  ghost predicate CopiedLinks(p: Pool, xs: seq<nat>, last: nat, first: bool, q: Pool, ys: seq<nat>)
    requires Valid(p, last) && forall k :: 0 <= k < |xs| ==> Valid(p, xs[k])
  {
    && |p.slots| <= |q.slots|
    && ListFrom(q, if |ys| == 0 then 0 else ys[0], ys)
    && Hook(At(q, last), first) == (if |ys| == 0 then Hook(At(p, last), first) else ys[0])
    && At(q, last) == Hang(At(p, last), first, Hook(At(q, last), first))
    && SameContents(p, xs, q, ys)
  }

  /** The copies came off the dead list first and from the top after, no
      other slot changed, and the dead list and the pool size account for
      every copy. */
  ghost predicate CopiedSlots(p: Pool, dead: seq<nat>, xs: seq<nat>, last: nat, q: Pool, ys: seq<nat>) {
    && |p.slots| <= |q.slots|
    && (forall k :: k in ys ==> k in dead || |p.slots| < k)
    && (forall k :: Valid(p, k) && k != last && k !in ys ==> At(q, k) == At(p, k))
    && ListFrom(q, q.dead, Drop(dead, |xs|))
    && |q.slots| == |p.slots| + (if |xs| <= |dead| then 0 else |xs| - |dead|)
  }

  lemma {:induction false} CopyChainFacts(p: Pool, room: nat, dead: seq<nat>, src: nat, xs: seq<nat>, last: nat, first: bool)
    requires |p.slots| <= room && ListFrom(p, p.dead, dead)
    requires ListFrom(p, src, xs) && Apart(xs, dead)
    requires Valid(p, last) && last !in xs && last !in dead
    requires CopyChain(p, room, dead, src, xs, last, first).Some?
    ensures var (q, ys) := CopyChain(p, room, dead, src, xs, last, first).value;
      Copied(p, room, dead, xs, last, first, q, ys)
    decreases |xs|
  {
    if src == 0 {
      assert Hang(At(p, last), first, Hook(At(p, last), first)) == At(p, last);
    } else {
      assert src in xs;
      assert |dead| > 0 ==> dead[0] in dead;
      var (q, i) := CopyOne(p, room, src, last, first).value;
      CopyOneLists(p, room, dead, src, xs, last, first);
      CopyChainFacts(q, room, Drop(dead, 1), At(q, src).next, xs[1..], i, false);
      var (r, ys) := CopyChain(q, room, Drop(dead, 1), At(q, src).next, xs[1..], i, false).value;
      assert CopyChain(p, room, dead, src, xs, last, first).value == (r, [i] + ys);
      CopyChainStep(p, room, dead, src, xs, last, first, q, i, r, ys);
    }
  }

  /** One pass followed by the copy of the rest is a copy of the whole chain. */
  lemma CopyChainStep(p: Pool, room: nat, dead: seq<nat>, src: nat, xs: seq<nat>, last: nat, first: bool,
                      q: Pool, i: nat, r: Pool, ys: seq<nat>)
    requires |p.slots| <= room && ListFrom(p, p.dead, dead)
    requires ListFrom(p, src, xs) && Apart(xs, dead) && src != 0
    requires Valid(p, last) && last !in xs && last !in dead
    requires src != p.dead && last != p.dead && src != last
    requires CopyOne(p, room, src, last, first) == Some((q, i))
    requires ListFrom(q, q.dead, Drop(dead, 1)) && ListFrom(q, At(q, src).next, xs[1..])
    requires i !in xs && i !in Drop(dead, 1) && (i in dead || |p.slots| < i)
    requires (|dead| > 0 ==> i == dead[0]) && (|dead| == 0 ==> |q.slots| == |p.slots| + 1)
    requires forall k :: k in xs ==> At(q, k) == At(p, k)
    requires Copied(q, room, Drop(dead, 1), xs[1..], i, false, r, ys)
    ensures Copied(p, room, dead, xs, last, first, r, [i] + ys)
  {
    StepFresh(p, q, dead, i, last, ys);
    assert At(r, last) == At(q, last);
    assert At(r, i) == At(q, i).(next := At(r, i).next);
    if |ys| == 0 {
      ListTail(p, src, xs);
      assert |xs| == 1;
    }
    StepLinks(p, q, r, xs, last, first, i, ys);
    StepCounts(p, q, r, dead, xs, i, ys);
    StepFrame(p, q, r, i, last, ys);
  }

  lemma StepLinks(p: Pool, q: Pool, r: Pool, xs: seq<nat>, last: nat, first: bool, i: nat, ys: seq<nat>)
    requires |xs| > 0 && Valid(p, last) && (forall k :: 0 <= k < |xs| ==> Valid(p, xs[k]))
    requires forall k :: 0 <= k < |xs| ==> Valid(q, xs[k])
    requires |p.slots| <= |q.slots| && Valid(q, i) && i !in ys && last != i && last !in ys
    requires At(q, i) == At(p, xs[0]) && At(q, last) == Hang(At(p, last), first, i)
    requires forall k :: k in xs ==> At(q, k) == At(p, k)
    requires |ys| == 0 ==> At(p, xs[0]).next == 0
    requires |q.slots| <= |r.slots|
    requires At(r, last) == At(q, last) && At(r, i) == At(q, i).(next := At(r, i).next)
    requires CopiedLinks(q, xs[1..], i, false, r, ys)
    ensures CopiedLinks(p, xs, last, first, r, [i] + ys)
  {
    StepList(r, i, ys);
    assert forall k :: k in xs[1..] ==> k in xs;
    SameContentsCons(p, xs, q, r, i, ys);
  }

  /** Slots other than the copies and the hook are left alone by a whole copy. */
  lemma StepFrame(p: Pool, q: Pool, r: Pool, i: nat, last: nat, ys: seq<nat>)
    requires |p.slots| <= |q.slots| <= |r.slots|
    requires forall k :: Valid(p, k) && k != i && k != last ==> At(q, k) == At(p, k)
    requires forall k :: Valid(q, k) && k != i && k !in ys ==> At(r, k) == At(q, k)
    ensures forall k :: Valid(p, k) && k != last && k !in [i] + ys ==> At(r, k) == At(p, k)
  {
  }

  /** The copy just made and the slot the chain hangs from are not among the
      later copies: those came from the rest of the dead list or above the top. */
  lemma StepFresh(p: Pool, q: Pool, dead: seq<nat>, i: nat, last: nat, ys: seq<nat>)
    requires Valid(q, i) && |p.slots| <= |q.slots| && i !in Drop(dead, 1)
    requires Valid(p, last) && last !in dead && (i in dead || |p.slots| < i)
    requires forall k :: k in ys ==> k in Drop(dead, 1) || |q.slots| < k
    ensures i !in ys && last !in ys && last != i
  {
    assert forall k :: k in Drop(dead, 1) ==> k in dead;
  }

  lemma StepList(r: Pool, i: nat, ys: seq<nat>)
    requires ListFrom(r, if |ys| == 0 then 0 else ys[0], ys)
    requires Valid(r, i) && i !in ys
    requires At(r, i).next == (if |ys| == 0 then 0 else ys[0])
    ensures ListFrom(r, i, [i] + ys)
  {
    var zs := [i] + ys;
    forall k | 0 <= k < |zs| - 1
      ensures At(r, zs[k]).next == zs[k + 1]
    {
      if k > 0 { assert zs[k] == ys[k - 1]; }
    }
  }

  /** The slots used so far and the dead list left over add up across passes. */
  lemma StepCounts(p: Pool, q: Pool, r: Pool, dead: seq<nat>, xs: seq<nat>, i: nat, ys: seq<nat>)
    requires |xs| > 0
    requires (|dead| > 0 ==> i == dead[0] && |q.slots| == |p.slots|) && (|dead| == 0 ==> |q.slots| == |p.slots| + 1)
    requires i in dead || |p.slots| < i
    requires forall k :: k in ys ==> k in Drop(dead, 1) || |q.slots| < k
    requires ListFrom(r, r.dead, Drop(Drop(dead, 1), |xs| - 1))
    requires |r.slots| == |q.slots| + (if |xs| - 1 <= |Drop(dead, 1)| then 0 else |xs| - 1 - |Drop(dead, 1)|)
    ensures forall k :: k in [i] + ys ==> k in dead || |p.slots| < k
    ensures ListFrom(r, r.dead, Drop(dead, |xs|))
    ensures |r.slots| == |p.slots| + (if |xs| <= |dead| then 0 else |xs| - |dead|)
  {
    assert forall k :: k in Drop(dead, 1) ==> k in dead;
    assert Drop(Drop(dead, 1), |xs| - 1) == Drop(dead, |xs|);
  }

  lemma SameContentsCons(p: Pool, xs: seq<nat>, q: Pool, r: Pool, i: nat, ys: seq<nat>)
    requires |xs| > 0 && (forall k :: 0 <= k < |xs| ==> Valid(p, xs[k]))
    requires (forall k :: 0 <= k < |xs| ==> Valid(q, xs[k])) && (forall k :: 0 <= k < |ys| ==> Valid(r, ys[k]))
    requires Valid(r, i) && Valid(q, xs[0])
    requires forall k :: k in xs[1..] ==> At(q, k) == At(p, k)
    requires At(r, i).(next := 0) == At(p, xs[0]).(next := 0)
    requires SameContents(q, xs[1..], r, ys)
    ensures SameContents(p, xs, r, [i] + ys)
  {
    forall k | 0 <= k < |xs|
      ensures At(r, ([i] + ys)[k]).(next := 0) == At(p, xs[k]).(next := 0)
    {
      if k > 0 {
        assert xs[k] == xs[1..][k - 1] && xs[k] in xs[1..];
      }
    }
  }

  /** Copying a chain fails exactly when the slots it needs beyond the dead
      list do not fit. */
  lemma {:induction false} CopyChainRoom(p: Pool, room: nat, dead: seq<nat>, src: nat, xs: seq<nat>, last: nat, first: bool)
    requires |p.slots| <= room && ListFrom(p, p.dead, dead)
    requires ListFrom(p, src, xs) && Apart(xs, dead)
    requires Valid(p, last) && last !in xs && last !in dead
    ensures CopyChain(p, room, dead, src, xs, last, first).Some?
        <==> |p.slots| + (if |xs| <= |dead| then 0 else |xs| - |dead|) <= room
    decreases |xs|
  {
    if src != 0 {
      assert src in xs;
      assert |dead| > 0 ==> dead[0] in dead;
      if CopyOne(p, room, src, last, first).Some? {
        var (q, i) := CopyOne(p, room, src, last, first).value;
        CopyOneLists(p, room, dead, src, xs, last, first);
        CopyChainRoom(q, room, Drop(dead, 1), At(q, src).next, xs[1..], i, false);
        assert CopyChain(p, room, dead, src, xs, last, first).Some?
           <==> CopyChain(q, room, Drop(dead, 1), At(q, src).next, xs[1..], i, false).Some?;
        assert |dead| > 0 <==> p.dead != 0;
        RoomStep(|p.slots|, |q.slots|, |dead|, |Drop(dead, 1)|, |xs|, room);
      } else {
        assert |dead| == 0;
      }
    }
  }

  /** The room test after one pass is the room test before it. */
  lemma RoomStep(ps: nat, qs: nat, d: nat, rest: nat, n: nat, room: nat)
    requires n > 0 && rest == (if d > 0 then d - 1 else 0)
    requires (d > 0 ==> qs == ps) && (d == 0 ==> qs == ps + 1)
    ensures (qs + (if n - 1 <= rest then 0 else n - 1 - rest) <= room)
        <==> (ps + (if n <= d then 0 else n - d) <= room)
  {
  }

  /** The clone of a probe as `regclone` starts it: a cleared slot with the
      probe's node and offset. */
  function Started(s: Slot): Slot {
    Blank.(node := s.node, off := s.off)
  }

  /** `regclone`: a slot for the clone, then a copy of every frame of the
      probe's stack `xs`, linked in the same order below the clone. `dead`
      is the dead list. Slots taken before running out of room are not given
      back, as in the source; the evaluation stops on that failure anyway. */
  function Clone(p: Pool, room: nat, probe: nat, xs: seq<nat>, dead: seq<nat>): (r: Option<(Pool, nat, seq<nat>)>)
    requires |p.slots| <= room && ListFrom(p, p.dead, dead)
    requires Valid(p, probe) && probe !in dead
    requires ListFrom(p, At(p, probe).stack, xs) && probe !in xs && Apart(xs, dead)
  {
    assert |dead| > 0 ==> dead[0] in dead;
    match Alloc(p, room)
    case None => None
    case Some((q, c)) =>
      AllocFromDead(p, room, dead);
      var q1 := Put(q, c, Started(At(q, probe)));
      CloneReady(p, room, probe, xs, dead, q, c, q1);
      match CopyChain(q1, room, Drop(dead, 1), At(q1, probe).stack, xs, c, true)
      case None => None
      case Some((r, ys)) => Some((r, c, ys))
  }

  /** After the clone's slot is taken the chain can be copied below it. */
  lemma CloneReady(p: Pool, room: nat, probe: nat, xs: seq<nat>, dead: seq<nat>, q: Pool, c: nat, q1: Pool)
    requires |p.slots| <= room && ListFrom(p, p.dead, dead)
    requires Valid(p, probe) && probe !in dead
    requires ListFrom(p, At(p, probe).stack, xs) && probe !in xs && Apart(xs, dead)
    requires |dead| > 0 || |p.slots| + 1 <= room
    requires Alloc(p, room) == Some((q, c))
    requires Valid(q, c) && q1 == Put(q, c, Started(At(q, probe)))
    ensures |q1.slots| <= room && ListFrom(q1, q1.dead, Drop(dead, 1))
    ensures c != probe && At(q1, probe) == At(p, probe) && At(q1, c) == Started(At(p, probe))
    ensures ListFrom(q1, At(q1, probe).stack, xs) && Apart(xs, Drop(dead, 1))
    ensures c !in xs && c !in Drop(dead, 1) && (|dead| > 0 ==> c == dead[0])
    ensures |dead| == 0 ==> |q1.slots| == |p.slots| + 1 && c == |q1.slots|
    ensures |dead| > 0 ==> |q1.slots| == |p.slots|
    ensures forall k :: Valid(p, k) && k != c ==> At(q1, k) == At(p, k)
  {
    AllocFromDead(p, room, dead);
    assert |dead| > 0 ==> dead[0] in dead;
    assert c != probe;
    assert forall k :: k in Drop(dead, 1) ==> k in dead;
    ListKept(p, q1, At(p, probe).stack, xs);
    ListKept(q, q1, q1.dead, Drop(dead, 1));
  }


  /** Slots the clone of a probe holding `n` frames takes beyond the dead list. */
  function Fresh(n: nat, dead: seq<nat>): nat {
    if 1 + n <= |dead| then 0 else 1 + n - |dead|
  }

  /** What `regclone` promises: it fails exactly when the clone and its
      frames do not fit; otherwise the clone carries the probe's node and
      offset, its stack repeats the probe's frames in order in slots of its
      own taken from the dead list first, and nothing else changed. */
  lemma CloneFacts(p: Pool, room: nat, probe: nat, xs: seq<nat>, dead: seq<nat>)
    requires |p.slots| <= room && ListFrom(p, p.dead, dead)
    requires Valid(p, probe) && probe !in dead
    requires ListFrom(p, At(p, probe).stack, xs) && probe !in xs && Apart(xs, dead)
    ensures Clone(p, room, probe, xs, dead).Some? <==> |p.slots| + Fresh(|xs|, dead) <= room
    ensures Clone(p, room, probe, xs, dead).Some? ==> var (r, c, ys) := Clone(p, room, probe, xs, dead).value;
      && |r.slots| == |p.slots| + Fresh(|xs|, dead)
      && Valid(r, c) && c !in ys && (|dead| > 0 ==> c == dead[0])
      && At(r, c).node == At(p, probe).node && At(r, c).off == At(p, probe).off
      && ListFrom(r, At(r, c).stack, ys)
      && SameContents(p, xs, r, ys)
      && (forall k :: k in [c] + ys ==> k in dead || |p.slots| < k)
      && (forall k :: Valid(p, k) && k != c && k !in ys ==> At(r, k) == At(p, k))
      && ListFrom(r, r.dead, Drop(dead, 1 + |xs|))
  {
    assert |dead| > 0 ==> dead[0] in dead;
    if Alloc(p, room).Some? {
      var (q, c) := Alloc(p, room).value;
      AllocFromDead(p, room, dead);
      var q1 := Put(q, c, Started(At(q, probe)));
      CloneReady(p, room, probe, xs, dead, q, c, q1);
      CopyChainRoom(q1, room, Drop(dead, 1), At(q1, probe).stack, xs, c, true);
      if CopyChain(q1, room, Drop(dead, 1), At(q1, probe).stack, xs, c, true).Some? {
        CopyChainFacts(q1, room, Drop(dead, 1), At(q1, probe).stack, xs, c, true);
        var (r, ys) := CopyChain(q1, room, Drop(dead, 1), At(q1, probe).stack, xs, c, true).value;
        CloneFinish(p, probe, xs, dead, q1, c, r, ys);
      }
    }
  }

  lemma CloneFinish(p: Pool, probe: nat, xs: seq<nat>, dead: seq<nat>, q1: Pool, c: nat, r: Pool, ys: seq<nat>)
    requires Valid(p, probe) && ListFrom(p, At(p, probe).stack, xs) && Valid(q1, c) && |p.slots| <= |q1.slots|
    requires At(q1, c) == Started(At(p, probe)) && c !in Drop(dead, 1) && (|dead| > 0 ==> c == dead[0])
    requires c in dead || |p.slots| < c
    requires (|dead| == 0 ==> |q1.slots| == |p.slots| + 1) && (|dead| > 0 ==> |q1.slots| == |p.slots|)
    requires forall k :: Valid(p, k) && k != c ==> At(q1, k) == At(p, k)
    requires c !in xs
    requires Copied(q1, |r.slots|, Drop(dead, 1), xs, c, true, r, ys)
    ensures |r.slots| == |p.slots| + Fresh(|xs|, dead)
    ensures Valid(r, c) && c !in ys
    ensures At(r, c).node == At(p, probe).node && At(r, c).off == At(p, probe).off
    ensures ListFrom(r, At(r, c).stack, ys)
    ensures SameContents(p, xs, r, ys)
    ensures forall k :: k in [c] + ys ==> k in dead || |p.slots| < k
    ensures forall k :: Valid(p, k) && k != c && k !in ys ==> At(r, k) == At(p, k)
    ensures ListFrom(r, r.dead, Drop(dead, 1 + |xs|))
  {
    assert forall k :: k in Drop(dead, 1) ==> k in dead;
    assert forall k :: 0 <= k < |xs| ==> xs[k] in xs && At(q1, xs[k]) == At(p, xs[k]);
    assert Drop(Drop(dead, 1), |xs|) == Drop(dead, 1 + |xs|);
  }

}
