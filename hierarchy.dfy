/** Transform propagation along the parent -> children forest. The entity
    store is modelled by explicit maps: the local Transform, the world
    (Global) Transform, the Children list and the ChildOf parent link of each
    entity. The propagation systems read these maps and return the new world
    transforms. */
module Hierarchy {
  import opened Geometry
  import opened Components

  datatype Option<T> = None | Some(value: T)

  /** The relationship invariant the entity store maintains between ChildOf
      and Children: a child listed under p points back to p, no Children list
      repeats an entity, and every ChildOf link is listed by its parent. */
  predicate HierarchyConsistent(children: map<Entity, seq<Entity>>, parentOf: map<Entity, Entity>) {
    && (forall p, c :: p in children && c in children[p] ==> c in parentOf && parentOf[c] == p)
    && (forall p :: p in children ==> NoDup(children[p]))
    && (forall c :: c in parentOf ==> parentOf[c] in children && c in children[parentOf[c]])
  }

  /** Matched by the query of parentless entities: a local and a world
      transform, and no ChildOf. */
  predicate IsRoot(locals: map<Entity, Transform>, globals: map<Entity, GlobalTransform>,
                   parentOf: map<Entity, Entity>, e: Entity) {
    e in locals && e in globals && e !in parentOf
  }

  /** Matched by the query of children: both transforms and a ChildOf. */
  predicate IsChild(locals: map<Entity, Transform>, globals: map<Entity, GlobalTransform>,
                    parentOf: map<Entity, Entity>, e: Entity) {
    e in locals && e in globals && e in parentOf
  }

  /** The reference definition of a world transform: walk n ChildOf links up
      to a parentless entity, composing from_root there and from_local on the
      way back down. None when the chain has another length or passes through
      an entity lacking either transform. */
  function ChainWorld(locals: map<Entity, Transform>, globals: map<Entity, GlobalTransform>,
                      parentOf: map<Entity, Entity>, e: Entity, n: nat): Option<GlobalTransform>
    decreases n
  {
    if n == 0 then
      if IsRoot(locals, globals, parentOf, e) then Some(FromRoot(locals[e])) else None
    else if IsChild(locals, globals, parentOf, e) then
      match ChainWorld(locals, globals, parentOf, parentOf[e], n - 1)
      case Some(g) => Some(FromLocal(g, locals[e]))
      case None => None
    else None
  }

  /** An entity's chain to its root has one length only. */
  lemma {:induction false} ChainWorldDepthUnique(locals: map<Entity, Transform>,
                                                 globals: map<Entity, GlobalTransform>,
                                                 parentOf: map<Entity, Entity>, e: Entity, n: nat, m: nat)
    requires ChainWorld(locals, globals, parentOf, e, n).Some?
    requires ChainWorld(locals, globals, parentOf, e, m).Some?
    ensures n == m
    decreases n
  {
    if n != 0 && m != 0 {
      ChainWorldDepthUnique(locals, globals, parentOf, parentOf[e], n - 1, m - 1);
    }
  }

  /** The facts the propagation pass establishes, one entity at a time: roots
      get from_root, each reached child gets from_local of its parent's new
      world transform, with its depth one more than its parent's, and every
      eligible child of a reached entity is reached. */
  ghost predicate LocallyPropagated(locals: map<Entity, Transform>, globals: map<Entity, GlobalTransform>,
                                    parentOf: map<Entity, Entity>, out: map<Entity, GlobalTransform>,
                                    done: set<Entity>, depth: map<Entity, nat>) {
    && depth.Keys == done && done <= out.Keys
    && (forall e :: IsRoot(locals, globals, parentOf, e) ==>
          e in done && depth[e] == 0 && out[e] == FromRoot(locals[e]))
    && (forall e :: e in done && e !in parentOf ==> IsRoot(locals, globals, parentOf, e) && depth[e] == 0)
    && (forall e :: e in done && e in parentOf ==>
          IsChild(locals, globals, parentOf, e) && parentOf[e] in done &&
          depth[e] == depth[parentOf[e]] + 1 && out[e] == FromLocal(out[parentOf[e]], locals[e]))
    && (forall e :: IsChild(locals, globals, parentOf, e) && parentOf[e] in done ==> e in done)
  }

  /** Local propagation rules determine the whole result: the reached
      entities are exactly those with a chain to a root, and each one's world
      transform is the composition along that chain. */
  lemma PropagatedMatchesChain(locals: map<Entity, Transform>, globals: map<Entity, GlobalTransform>,
                               parentOf: map<Entity, Entity>, out: map<Entity, GlobalTransform>,
                               done: set<Entity>, depth: map<Entity, nat>)
    requires LocallyPropagated(locals, globals, parentOf, out, done, depth)
    ensures forall e :: e in done ==> ChainWorld(locals, globals, parentOf, e, depth[e]) == Some(out[e])
    ensures forall e, n :: ChainWorld(locals, globals, parentOf, e, n).Some? ==>
              e in done && depth[e] == n && out[e] == ChainWorld(locals, globals, parentOf, e, n).value
  {
    forall e | e in done
      ensures ChainWorld(locals, globals, parentOf, e, depth[e]) == Some(out[e])
    {
      ReachedHasChain(locals, globals, parentOf, out, done, depth, e, depth[e]);
    }
    forall e, n | ChainWorld(locals, globals, parentOf, e, n).Some?
      ensures e in done && depth[e] == n && out[e] == ChainWorld(locals, globals, parentOf, e, n).value
    {
      ChainIsReached(locals, globals, parentOf, out, done, depth, e, n);
    }
  }

  lemma {:induction false} ReachedHasChain(locals: map<Entity, Transform>, globals: map<Entity, GlobalTransform>,
                                           parentOf: map<Entity, Entity>, out: map<Entity, GlobalTransform>,
                                           done: set<Entity>, depth: map<Entity, nat>, e: Entity, n: nat)
    requires LocallyPropagated(locals, globals, parentOf, out, done, depth)
    requires e in done && depth[e] == n
    ensures ChainWorld(locals, globals, parentOf, e, n) == Some(out[e])
    decreases n
  {
    if e in parentOf {
      ReachedHasChain(locals, globals, parentOf, out, done, depth, parentOf[e], n - 1);
    }
  }

  lemma {:induction false} ChainIsReached(locals: map<Entity, Transform>, globals: map<Entity, GlobalTransform>,
                                          parentOf: map<Entity, Entity>, out: map<Entity, GlobalTransform>,
                                          done: set<Entity>, depth: map<Entity, nat>, e: Entity, n: nat)
    requires LocallyPropagated(locals, globals, parentOf, out, done, depth)
    requires ChainWorld(locals, globals, parentOf, e, n).Some?
    ensures e in done && depth[e] == n && out[e] == ChainWorld(locals, globals, parentOf, e, n).value
    decreases n
  {
    if n > 0 {
      ChainIsReached(locals, globals, parentOf, out, done, depth, parentOf[e], n - 1);
    }
  }

  /** The children listed under `p`; an entity without a Children
      component has none. */
  function Kids(children: map<Entity, seq<Entity>>, p: Entity): seq<Entity> {
    if p in children then children[p] else []
  }

  /** The stack entries `for &child in children { stack.push((g, child)) }` adds. */
  function Tagged(g: GlobalTransform, cs: seq<Entity>): seq<(GlobalTransform, Entity)> {
    seq(|cs|, i requires 0 <= i < |cs| => (g, cs[i]))
  }

  /** The entities waiting on the stack, bottom first. */
  function Pending(stack: seq<(GlobalTransform, Entity)>): seq<Entity> {
    seq(|stack|, i requires 0 <= i < |stack| => stack[i].1)
  }

  lemma PendingPush(stack: seq<(GlobalTransform, Entity)>, g: GlobalTransform, cs: seq<Entity>)
    ensures Pending(stack + Tagged(g, cs)) == Pending(stack) + cs
  {
  }

  lemma PendingPop(stack: seq<(GlobalTransform, Entity)>)
    requires |stack| > 0
    ensures Pending(stack) == Pending(stack[..|stack| - 1]) + [stack[|stack| - 1].1]
    ensures NoDup(Pending(stack)) ==> NoDup(Pending(stack[..|stack| - 1])) &&
                                      stack[|stack| - 1].1 !in Pending(stack[..|stack| - 1])
  {
    var a, b := Pending(stack), Pending(stack[..|stack| - 1]);
    assert a == b + [stack[|stack| - 1].1];
    if NoDup(a) {
      forall i | 0 <= i < |b|
        ensures b[i] != stack[|stack| - 1].1
      {
        assert b[i] == a[i] && a[|a| - 1] == stack[|stack| - 1].1;
      }
      forall i, j | 0 <= i < j < |b|
        ensures b[i] != b[j]
      {
        assert b[i] == a[i] && b[j] == a[j];
      }
    }
  }

  /** What has been written so far: every written parentless entity is a
      root written with from_root, every other written entity a child
      written with from_local of its parent's new world transform; unwritten
      entities keep their old world transform. */
  ghost predicate Written(locals: map<Entity, Transform>, globals: map<Entity, GlobalTransform>,
                          parentOf: map<Entity, Entity>, out: map<Entity, GlobalTransform>,
                          done: set<Entity>, depth: map<Entity, nat>) {
    && out.Keys == globals.Keys && done <= globals.Keys && depth.Keys == done
    && (forall e :: e in done && e !in parentOf ==>
          IsRoot(locals, globals, parentOf, e) && depth[e] == 0 && out[e] == FromRoot(locals[e]))
    && (forall e {:trigger parentOf[e]} :: e in done && e in parentOf ==>
          IsChild(locals, globals, parentOf, e) && parentOf[e] in done &&
          depth[e] == depth[parentOf[e]] + 1 && out[e] == FromLocal(out[parentOf[e]], locals[e]))
    && (forall e :: e in globals && e !in done ==> out[e] == globals[e])
  }

  /** A stack entry (g, c) waits for a child c of a written parent, carrying
      that parent's new world transform. */
  ghost predicate Awaiting(parentOf: map<Entity, Entity>, out: map<Entity, GlobalTransform>,
                           done: set<Entity>, entry: (GlobalTransform, Entity)) {
    entry.1 in parentOf && parentOf[entry.1] in done && parentOf[entry.1] in out &&
    entry.1 !in done && entry.0 == out[parentOf[entry.1]]
  }

  /** The stack's side of the walk: every entry is awaiting, no entity
      waits twice, and every unwritten child of a written parent that the
      children query matches is waiting. */
  ghost predicate Frontier(locals: map<Entity, Transform>, globals: map<Entity, GlobalTransform>,
                           parentOf: map<Entity, Entity>, out: map<Entity, GlobalTransform>,
                           done: set<Entity>, stack: seq<(GlobalTransform, Entity)>) {
    && NoDup(Pending(stack))
    && (forall i :: 0 <= i < |stack| ==> Awaiting(parentOf, out, done, stack[i]))
    && (forall c :: IsChild(locals, globals, parentOf, c) && parentOf[c] in done && c !in done ==>
          c in Pending(stack))
  }

  /** The whole walk invariant between two pops. */
  ghost predicate Walk(locals: map<Entity, Transform>, globals: map<Entity, GlobalTransform>,
                       parentOf: map<Entity, Entity>, out: map<Entity, GlobalTransform>,
                       done: set<Entity>, depth: map<Entity, nat>, stack: seq<(GlobalTransform, Entity)>) {
    Written(locals, globals, parentOf, out, done, depth) &&
    Frontier(locals, globals, parentOf, out, done, stack)
  }
}
