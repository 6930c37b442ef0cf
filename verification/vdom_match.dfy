/**
 * Child matching in the reconciler of `src/vdom4.ts`: node identity (`same`), the search
 * for a matching old child (`findIndexOfChild`), and the instruction list `_process`
 * builds when it pairs the old child wrappers with the new ones.  Children are given by
 * their nodes; an instruction names an old and a new child by position.
 */
module ChildMatching {
  import opened JsValues
  import opened Nodes

  /** `node.properties.key` */
  function KeyOf(n: DNode): Value
  {
    match n
    case VNode(_, _, _, p, _, _, _) => PropGet(p, "key")
    case WNode(_, _, p, _) => PropGet(p, "key")
    case _ => Value.Undefined
  }

  /**
   * `same(dnode1, dnode2)`: element nodes match on tag and key; widget nodes match on an
   * identical constructor and key, never when the new node names its widget by a label.
   */
  function Same(dnode1: DNode, dnode2: DNode): (r: bool)
    ensures dnode1.VNode? && dnode2.VNode? ==>
      (r <==> dnode1.tag == dnode2.tag && StrictEq(KeyOf(dnode1), KeyOf(dnode2)))
    ensures dnode1.WNode? && dnode2.WNode? ==>
      (r <==> dnode2.widgetConstructor.Ctor? && dnode1.widgetConstructor == dnode2.widgetConstructor
              && StrictEq(KeyOf(dnode1), KeyOf(dnode2)))
    ensures r ==> (dnode1.VNode? && dnode2.VNode?) || (dnode1.WNode? && dnode2.WNode?)
  {
    if IsVNode(dnode1) && IsVNode(dnode2) then
      if dnode1.tag != dnode2.tag then false
      else if !StrictEq(KeyOf(dnode1), KeyOf(dnode2)) then false
      else true
    else if IsWNode(dnode1) && IsWNode(dnode2) then
      if dnode2.widgetConstructor.Label? then false
      else if dnode1.widgetConstructor != dnode2.widgetConstructor then false
      else if !StrictEq(KeyOf(dnode1), KeyOf(dnode2)) then false
      else true
    else false
  }

  /** A node with a constructor is the same as itself; an element node always is. */
  lemma SameReflexive(n: DNode)
    requires n.VNode? || (n.WNode? && n.widgetConstructor.Ctor?)
    ensures Same(n, n)
  {
    StrictEqReflexive(KeyOf(n));
  }

  /**
   * A widget node that names its widget by a registry label is never the same as any node,
   * itself included, so it is recreated on every render.
   */
  lemma LabelledWidgetNeverSame(n: DNode, other: DNode)
    requires n.WNode? && n.widgetConstructor.Label?
    ensures !Same(other, n)
  {
  }

  /** The first position from `start` on whose node is the same as `sameAs`, or -1. */
  function FirstSame(children: seq<DNode>, sameAs: DNode, start: nat): (r: int)
    ensures r == -1 || start <= r < |children|
    ensures r == -1 <==> forall j :: start <= j < |children| ==> !Same(children[j], sameAs)
    ensures r != -1 ==> Same(children[r], sameAs) && forall j :: start <= j < r ==> !Same(children[j], sameAs)
    decreases |children| - start
  {
    if start >= |children| then -1
    else if Same(children[start], sameAs) then start
    else FirstSame(children, sameAs, start + 1)
  }

  /** `findIndexOfChild(children, sameAs, start)` */
  method FindIndexOfChild(children: seq<DNode>, sameAs: DNode, start: nat) returns (r: int)
    ensures r == FirstSame(children, sameAs, start)
  {
    var i := start;
    while i < |children|
      invariant start <= i
      invariant FirstSame(children, sameAs, start) == FirstSame(children, sameAs, i)
      decreases |children| - i
    {
      if Same(children[i], sameAs) {
        return i;
      }
      i := i + 1;
    }
    return -1;
  }

  // ---------------------------------------------------------------- the pairing in _process

  /** `{ current, next }`: an old child to update or remove, a new child to create, or both. */
  datatype Instruction = Instruction(current: Option<nat>, next: Option<nat>)

  /** The instructions and found old positions after the first `n` new children. */
  datatype Pass = Pass(instructions: seq<Instruction>, found: seq<nat>)

  /**
   * What one new child `i` adds, given the old position `oldIndex` it matched (-1 for none):
   * no match creates, a match at the child's own position updates, a match further on
   * removes that old child and creates the new one.
   */
  function Place(p: Pass, i: nat, oldIndex: int): (r: Pass)
  {
    if oldIndex < 0 then Pass(p.instructions + [Instruction(None, Some(i))], p.found)
    else if oldIndex == i then Pass(p.instructions + [Instruction(Some(oldIndex), Some(i))], p.found + [oldIndex])
    else Pass(p.instructions + [Instruction(Some(oldIndex), None), Instruction(None, Some(i))], p.found + [oldIndex])
  }

  /** The first loop of `_process` over the first `n` new children. */
  function NextPass(current: seq<DNode>, next: seq<DNode>, n: nat): (r: Pass)
    requires n <= |next|
    ensures forall k :: 0 <= k < |r.found| ==> r.found[k] < |current|
    decreases n
  {
    if n == 0 then Pass([], [])
    else Place(NextPass(current, next, n - 1), n - 1, FirstSame(current, next[n - 1], n - 1))
  }

  /** The second loop of `_process`: a removal for every old position below `m` never found. */
  function Removals(found: seq<nat>, m: nat): (r: seq<Instruction>)
    decreases m
  {
    if m == 0 then []
    else Removals(found, m - 1) + (if m - 1 in found then [] else [Instruction(Some(m - 1), None)])
  }

  /** The whole instruction list `_process` hands to `_processOne`, in order. */
  function Pairing(current: seq<DNode>, next: seq<DNode>): seq<Instruction>
  {
    var p := NextPass(current, next, |next|);
    p.instructions + Removals(p.found, |current|)
  }

  /** The two loops of `_process` that build `instructions` and `foundIndexes`. */
  method PairChildren(current: seq<DNode>, next: seq<DNode>) returns (instructions: seq<Instruction>)
    ensures instructions == Pairing(current, next)
  {
    instructions := [];
    var foundIndexes: seq<nat> := [];
    var i := 0;
    while i < |next|
      invariant 0 <= i <= |next|
      invariant Pass(instructions, foundIndexes) == NextPass(current, next, i)
    {
      var oldIndex := FindIndexOfChild(current, next[i], i);
      assert NextPass(current, next, i + 1) == Place(NextPass(current, next, i), i, oldIndex);
      if oldIndex == -1 {
        instructions := instructions + [Instruction(None, Some(i))];
      } else if oldIndex == i {
        foundIndexes := foundIndexes + [oldIndex];
        instructions := instructions + [Instruction(Some(oldIndex), Some(i))];
      } else {
        foundIndexes := foundIndexes + [oldIndex];
        instructions := instructions + [Instruction(Some(oldIndex), None)];
        instructions := instructions + [Instruction(None, Some(i))];
      }
      i := i + 1;
    }
    var firstPart := instructions;
    i := 0;
    while i < |current|
      invariant 0 <= i <= |current|
      invariant instructions == firstPart + Removals(foundIndexes, i)
    {
      if i !in foundIndexes {
        instructions := instructions + [Instruction(Some(i), None)];
      }
      i := i + 1;
    }
  }

  /** How many instructions name new child `j`. */
  function CountNext(ins: seq<Instruction>, j: nat): nat
    decreases |ins|
  {
    if |ins| == 0 then 0
    else CountNext(ins[..|ins| - 1], j) + (if ins[|ins| - 1].next == Some(j) then 1 else 0)
  }

  /** How many instructions name old child `i`. */
  function CountCurrent(ins: seq<Instruction>, i: nat): nat
    decreases |ins|
  {
    if |ins| == 0 then 0
    else CountCurrent(ins[..|ins| - 1], i) + (if ins[|ins| - 1].current == Some(i) then 1 else 0)
  }

  lemma {:induction false} CountAppend(a: seq<Instruction>, b: seq<Instruction>, k: nat)
    ensures CountNext(a + b, k) == CountNext(a, k) + CountNext(b, k)
    ensures CountCurrent(a + b, k) == CountCurrent(a, k) + CountCurrent(b, k)
    decreases |b|
  {
    if |b| == 0 {
      assert a + b == a;
    } else {
      assert (a + b)[..|a + b| - 1] == a + b[..|b| - 1];
      CountAppend(a, b[..|b| - 1], k);
    }
  }

  lemma {:induction false} RemovalsCount(found: seq<nat>, m: nat, k: nat)
    ensures CountNext(Removals(found, m), k) == 0
    ensures CountCurrent(Removals(found, m), k) == if k < m && k !in found then 1 else 0
    decreases m
  {
    if m > 0 {
      RemovalsCount(found, m - 1, k);
      var tail := if m - 1 in found then [] else [Instruction(Some(m - 1), None)];
      CountAppend(Removals(found, m - 1), tail, k);
    }
  }

  /** `Place` names new child `i` once and the matched old child once. */
  lemma PlaceCounts(p: Pass, i: nat, oldIndex: int, k: nat)
    ensures CountNext(Place(p, i, oldIndex).instructions, k) == CountNext(p.instructions, k) + (if k == i then 1 else 0)
    ensures CountCurrent(Place(p, i, oldIndex).instructions, k)
      == CountCurrent(p.instructions, k) + (if k == oldIndex then 1 else 0)
  {
    var added := if oldIndex < 0 then [Instruction(None, Some(i))]
      else if oldIndex == i then [Instruction(Some(oldIndex), Some(i))]
      else [Instruction(Some(oldIndex), None), Instruction(None, Some(i))];
    assert Place(p, i, oldIndex).instructions == p.instructions + added;
    CountAppend(p.instructions, added, k);
    if |added| == 2 {
      assert added[..1] == [Instruction(Some(oldIndex), None)];
      assert added[..1][..0] == [];
    } else {
      assert added[..0] == [];
    }
  }

  lemma {:induction false} NextPassCountNext(current: seq<DNode>, next: seq<DNode>, n: nat, j: nat)
    requires n <= |next|
    ensures CountNext(NextPass(current, next, n).instructions, j) == if j < n then 1 else 0
    decreases n
  {
    if n > 0 {
      NextPassCountNext(current, next, n - 1, j);
      NextPassStep(current, next, n, j);
    } else {
      assert NextPass(current, next, n).instructions == [];
    }
  }

  /** One step of the first loop adds exactly one instruction naming the new child it places. */
  lemma NextPassStep(current: seq<DNode>, next: seq<DNode>, n: nat, j: nat)
    requires 0 < n <= |next|
    ensures CountNext(NextPass(current, next, n).instructions, j)
      == CountNext(NextPass(current, next, n - 1).instructions, j) + (if j == n - 1 then 1 else 0)
  {
    PlaceCounts(NextPass(current, next, n - 1), n - 1, FirstSame(current, next[n - 1], n - 1), j);
  }

  /** Every new child gets exactly one instruction that creates or updates it. */
  lemma NewChildHandledOnce(current: seq<DNode>, next: seq<DNode>, j: nat)
    requires j < |next|
    ensures CountNext(Pairing(current, next), j) == 1
  {
    var p := NextPass(current, next, |next|);
    NextPassCountNext(current, next, |next|, j);
    RemovalsCount(p.found, |current|, j);
    CountAppend(p.instructions, Removals(p.found, |current|), j);
  }

  lemma {:induction false} NextPassShape(current: seq<DNode>, next: seq<DNode>, n: nat, ins: Instruction)
    requires n <= |next|
    ensures ins in NextPass(current, next, n).instructions ==>
      match ins
      case Instruction(Some(a), Some(b)) => a == b < n && FirstSame(current, next[b], b) == b
      case Instruction(None, Some(b)) => b < n && FirstSame(current, next[b], b) != b
      case Instruction(Some(a), None) => exists b :: 0 <= b < n && a == FirstSame(current, next[b], b) && a != b
      case Instruction(None, None) => false
    ensures ins.current.Some? && ins.next.Some? && ins.current == ins.next && ins.next.value < n
      && FirstSame(current, next[ins.next.value], ins.next.value) == ins.next.value
      ==> ins in NextPass(current, next, n).instructions
    ensures ins.current.None? && ins.next.Some? && ins.next.value < n
      && FirstSame(current, next[ins.next.value], ins.next.value) != ins.next.value
      ==> ins in NextPass(current, next, n).instructions
    decreases n
  {
    if n > 0 {
      NextPassShape(current, next, n - 1, ins);
    }
  }

  /**
   * A new child is updated in place iff its match is at its own position, and created iff it
   * has no match or a match further on.
   */
  lemma UpdateOrCreate(current: seq<DNode>, next: seq<DNode>, j: nat)
    requires j < |next|
    ensures Instruction(Some(j), Some(j)) in Pairing(current, next) <==> FirstSame(current, next[j], j) == j
    ensures Instruction(None, Some(j)) in Pairing(current, next) <==> FirstSame(current, next[j], j) != j
  {
    var p := NextPass(current, next, |next|);
    NextPassShape(current, next, |next|, Instruction(Some(j), Some(j)));
    NextPassShape(current, next, |next|, Instruction(None, Some(j)));
    RemovalsCount(p.found, |current|, j);
    CountAppend(p.instructions, Removals(p.found, |current|), j);
    RemovalsHaveNoNext(p.found, |current|);
  }

  lemma {:induction false} RemovalsHaveNoNext(found: seq<nat>, m: nat)
    ensures forall ins :: ins in Removals(found, m) ==>
      (ins.next.None? && ins.current.Some? && ins.current.value < m && ins.current.value !in found)
    decreases m
  {
    if m > 0 {
      RemovalsHaveNoNext(found, m - 1);
    }
  }

  lemma {:induction false} RemovalsComplete(found: seq<nat>, m: nat, i: nat)
    requires i < m && i !in found
    ensures Instruction(Some(i), None) in Removals(found, m)
    decreases m
  {
    if i < m - 1 {
      RemovalsComplete(found, m - 1, i);
    }
  }

  /** Every old child that no new child matched is removed. */
  lemma UnmatchedOldChildRemoved(current: seq<DNode>, next: seq<DNode>, i: nat)
    requires i < |current| && i !in NextPass(current, next, |next|).found
    ensures Instruction(Some(i), None) in Pairing(current, next)
  {
    var p := NextPass(current, next, |next|);
    RemovalsComplete(p.found, |current|, i);
  }

  // ---------------------------------------------------------------- a repeated removal

  function Element(id: nat, tag: string): DNode
  {
    VNode(id, tag, None, EmptyProps, None, false, [])
  }

  /**
   * Old children `[span, span, div]` and new children `[div, div]`, none keyed: both new
   * divs match the old div further on, so the old div is removed twice.
   */
  lemma DoubleRemoval()
    ensures CountCurrent(Pairing([Element(1, "span"), Element(2, "span"), Element(3, "div")],
                                 [Element(4, "div"), Element(5, "div")]), 2) == 2
  {
    var current := [Element(1, "span"), Element(2, "span"), Element(3, "div")];
    var next := [Element(4, "div"), Element(5, "div")];
    assert KeyOf(Element(3, "div")) == Value.Undefined;
    StrictEqReflexive(Value.Undefined);
    assert Same(current[2], next[0]) && Same(current[2], next[1]);
    assert FirstSame(current, next[0], 0) == 2;
    assert FirstSame(current, next[1], 1) == 2;
    var p0 := Pass([], []);
    var p1 := NextPass(current, next, 1);
    var p := NextPass(current, next, 2);
    assert p1 == Place(p0, 0, 2);
    assert p == Place(p1, 1, 2);
    PlaceCounts(p0, 0, 2, 2);
    PlaceCounts(p1, 1, 2, 2);
    assert p.found == [2, 2];
    RemovalsCount(p.found, 3, 2);
    CountAppend(p.instructions, Removals(p.found, 3), 2);
  }

  // ---------------------------------------------------------------- pairing each old child once

  /** The first position from `start` on, not yet matched, whose node is the same as `sameAs`. */
  function FirstUnfound(children: seq<DNode>, sameAs: DNode, start: nat, found: seq<nat>): (r: int)
    ensures r == -1 || start <= r < |children|
    ensures r == -1 <==> forall j :: start <= j < |children| ==> j in found || !Same(children[j], sameAs)
    ensures r != -1 ==> r !in found && Same(children[r], sameAs)
    decreases |children| - start
  {
    if start >= |children| then -1
    else if start !in found && Same(children[start], sameAs) then start
    else FirstUnfound(children, sameAs, start + 1, found)
  }

  /** `findIndexOfChild` that also passes over the old children already matched. */
  method FindUnfoundChild(children: seq<DNode>, sameAs: DNode, start: nat, found: seq<nat>) returns (r: int)
    ensures r == FirstUnfound(children, sameAs, start, found)
  {
    var i := start;
    while i < |children|
      invariant start <= i
      invariant FirstUnfound(children, sameAs, start, found) == FirstUnfound(children, sameAs, i, found)
      decreases |children| - i
    {
      if i !in found && Same(children[i], sameAs) {
        return i;
      }
      i := i + 1;
    }
    return -1;
  }

  /** The first loop of `_process` with the search restricted to unmatched old children. */
  function DistinctPass(current: seq<DNode>, next: seq<DNode>, n: nat): (r: Pass)
    requires n <= |next|
    ensures forall k :: 0 <= k < |r.found| ==> r.found[k] < |current|
    decreases n
  {
    if n == 0 then Pass([], [])
    else
      var p := DistinctPass(current, next, n - 1);
      Place(p, n - 1, FirstUnfound(current, next[n - 1], n - 1, p.found))
  }

  function DistinctPairing(current: seq<DNode>, next: seq<DNode>): seq<Instruction>
  {
    var p := DistinctPass(current, next, |next|);
    p.instructions + Removals(p.found, |current|)
  }

  /** The two loops of `_process`, matching every old child at most once. */
  method PairChildrenDistinct(current: seq<DNode>, next: seq<DNode>) returns (instructions: seq<Instruction>)
    ensures instructions == DistinctPairing(current, next)
  {
    instructions := [];
    var foundIndexes: seq<nat> := [];
    var i := 0;
    while i < |next|
      invariant 0 <= i <= |next|
      invariant Pass(instructions, foundIndexes) == DistinctPass(current, next, i)
    {
      var oldIndex := FindUnfoundChild(current, next[i], i, foundIndexes);
      assert DistinctPass(current, next, i + 1) == Place(DistinctPass(current, next, i), i, oldIndex);
      if oldIndex == -1 {
        instructions := instructions + [Instruction(None, Some(i))];
      } else if oldIndex == i {
        foundIndexes := foundIndexes + [oldIndex];
        instructions := instructions + [Instruction(Some(oldIndex), Some(i))];
      } else {
        foundIndexes := foundIndexes + [oldIndex];
        instructions := instructions + [Instruction(Some(oldIndex), None)];
        instructions := instructions + [Instruction(None, Some(i))];
      }
      i := i + 1;
    }
    var firstPart := instructions;
    i := 0;
    while i < |current|
      invariant 0 <= i <= |current|
      invariant instructions == firstPart + Removals(foundIndexes, i)
    {
      if i !in foundIndexes {
        instructions := instructions + [Instruction(Some(i), None)];
      }
      i := i + 1;
    }
  }

  lemma {:induction false} DistinctPassCounts(current: seq<DNode>, next: seq<DNode>, n: nat, k: nat)
    requires n <= |next|
    ensures CountNext(DistinctPass(current, next, n).instructions, k) == if k < n then 1 else 0
    ensures CountCurrent(DistinctPass(current, next, n).instructions, k)
      == if k in DistinctPass(current, next, n).found then 1 else 0
    decreases n
  {
    if n > 0 {
      var p := DistinctPass(current, next, n - 1);
      DistinctPassCounts(current, next, n - 1, k);
      DistinctPassStep(current, next, n, k, p, FirstUnfound(current, next[n - 1], n - 1, p.found));
    } else {
      assert DistinctPass(current, next, n).instructions == [];
    }
  }

  /** One step of the restricted loop names the new child it places and the old child it finds. */
  lemma DistinctPassStep(current: seq<DNode>, next: seq<DNode>, n: nat, k: nat, p: Pass, oldIndex: int)
    requires 0 < n <= |next|
    requires p == DistinctPass(current, next, n - 1)
    requires oldIndex == FirstUnfound(current, next[n - 1], n - 1, p.found)
    ensures CountNext(DistinctPass(current, next, n).instructions, k)
      == CountNext(p.instructions, k) + (if k == n - 1 then 1 else 0)
    ensures CountCurrent(DistinctPass(current, next, n).instructions, k)
      == CountCurrent(p.instructions, k) + (if k == oldIndex then 1 else 0)
    ensures k in DistinctPass(current, next, n).found <==> k in p.found || k == oldIndex
  {
    assert DistinctPass(current, next, n) == Place(p, n - 1, oldIndex);
    PlaceCounts(p, n - 1, oldIndex, k);
  }

  /** With the restricted search, every old child is updated or removed exactly once ... */
  lemma OldChildHandledOnce(current: seq<DNode>, next: seq<DNode>, i: nat)
    requires i < |current|
    ensures CountCurrent(DistinctPairing(current, next), i) == 1
  {
    var p := DistinctPass(current, next, |next|);
    DistinctPassCounts(current, next, |next|, i);
    RemovalsCount(p.found, |current|, i);
    CountAppend(p.instructions, Removals(p.found, |current|), i);
  }

  /** ... and every new child is still created or updated exactly once. */
  lemma DistinctNewChildHandledOnce(current: seq<DNode>, next: seq<DNode>, j: nat)
    requires j < |next|
    ensures CountNext(DistinctPairing(current, next), j) == 1
  {
    var p := DistinctPass(current, next, |next|);
    DistinctPassCounts(current, next, |next|, j);
    RemovalsCount(p.found, |current|, j);
    CountAppend(p.instructions, Removals(p.found, |current|), j);
  }
  /** Both positions an instruction names lie within the child lists they index. */
  predicate InRange(ins: Instruction, m: nat, n: nat)
  {
    (ins.current.Some? ==> ins.current.value < m) && (ins.next.Some? ==> ins.next.value < n)
  }

  lemma {:induction false} DistinctPassInRange(current: seq<DNode>, next: seq<DNode>, n: nat)
    requires n <= |next|
    ensures forall k :: 0 <= k < |DistinctPass(current, next, n).instructions| ==>
      InRange(DistinctPass(current, next, n).instructions[k], |current|, |next|)
    decreases n
  {
    if n > 0 {
      DistinctPassInRange(current, next, n - 1);
    }
  }

  lemma {:induction false} NextPassInRange(current: seq<DNode>, next: seq<DNode>, n: nat)
    requires n <= |next|
    ensures forall k :: 0 <= k < |NextPass(current, next, n).instructions| ==>
      InRange(NextPass(current, next, n).instructions[k], |current|, |next|)
    decreases n
  {
    if n > 0 {
      NextPassInRange(current, next, n - 1);
    }
  }

  /**
   * Every instruction of the pairing `_process` builds names an old and a new position that
   * exist, even when it names one old position twice.
   */
  lemma PairingInRange(current: seq<DNode>, next: seq<DNode>)
    ensures forall k :: 0 <= k < |Pairing(current, next)| ==>
      InRange(Pairing(current, next)[k], |current|, |next|)
  {
    var p := NextPass(current, next, |next|);
    NextPassInRange(current, next, |next|);
    RemovalsHaveNoNext(p.found, |current|);
  }

  /** Every instruction of the restricted pairing names an old and a new position that exist. */
  lemma DistinctPairingInRange(current: seq<DNode>, next: seq<DNode>)
    ensures forall k :: 0 <= k < |DistinctPairing(current, next)| ==>
      InRange(DistinctPairing(current, next)[k], |current|, |next|)
  {
    var p := DistinctPass(current, next, |next|);
    DistinctPassInRange(current, next, |next|);
    RemovalsHaveNoNext(p.found, |current|);
  }
}
