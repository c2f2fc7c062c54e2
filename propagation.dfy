/** The transform propagation systems: one pass over the parent -> children
    forest with an explicit stack, as run every fixed step. */
module Propagation {
  import opened Geometry
  import opened Components
  import opened Hierarchy

  /** The inner loop of both passes: push (g, child) for each child, in order. */
  method PushChildren(stack0: seq<(GlobalTransform, Entity)>, g: GlobalTransform, cs: seq<Entity>)
    returns (stack: seq<(GlobalTransform, Entity)>)
    ensures stack == stack0 + Tagged(g, cs)
  {
    stack := stack0;
    var j := 0;
    while j < |cs|
      invariant 0 <= j <= |cs|
      invariant stack == stack0 + Tagged(g, cs[..j])
    {
      assert Tagged(g, cs[..j + 1]) == Tagged(g, cs[..j]) + [(g, cs[j])];
      stack := stack + [(g, cs[j])];
      j := j + 1;
    }
    assert cs[..j] == cs;
  }

  /** Each listed child of `p` points back to `p`, and every ChildOf link to
      `p` is listed. */
  lemma KidsOf(children: map<Entity, seq<Entity>>, parentOf: map<Entity, Entity>, p: Entity)
    requires HierarchyConsistent(children, parentOf)
    ensures NoDup(Kids(children, p))
    ensures forall c :: c in Kids(children, p) ==> c in parentOf && parentOf[c] == p
    ensures forall c :: c in parentOf && parentOf[c] == p ==> c in Kids(children, p)
  {
  }

  lemma NoDupAppend(a: seq<Entity>, b: seq<Entity>)
    requires NoDup(a) && NoDup(b) && forall c :: c in b ==> c !in a
    ensures NoDup(a + b)
  {
    forall i, j | 0 <= i < j < |a + b|
      ensures (a + b)[i] != (a + b)[j]
    {
      if j >= |a| {
        assert b[j - |a|] in b;
        if i < |a| {
          assert a[i] in a;
        }
      }
    }
  }

  /** Writing from_root to a fresh root keeps the bookkeeping of what was written. */
  lemma RootWritten(locals: map<Entity, Transform>, globals: map<Entity, GlobalTransform>,
                    parentOf: map<Entity, Entity>,
                    out: map<Entity, GlobalTransform>, done: set<Entity>, depth: map<Entity, nat>, r: Entity)
    requires Written(locals, globals, parentOf, out, done, depth)
    requires IsRoot(locals, globals, parentOf, r) && r !in done
    ensures Written(locals, globals, parentOf, out[r := FromRoot(locals[r])], done + {r}, depth[r := 0])
  {
  }

  /** Writing from_local to a popped child keeps the bookkeeping of what was written. */
  lemma ChildWritten(locals: map<Entity, Transform>, globals: map<Entity, GlobalTransform>,
                     parentOf: map<Entity, Entity>,
                     out: map<Entity, GlobalTransform>, done: set<Entity>, depth: map<Entity, nat>,
                     x: Entity, g: GlobalTransform)
    requires Written(locals, globals, parentOf, out, done, depth)
    requires IsChild(locals, globals, parentOf, x) && x !in done
    requires parentOf[x] in done && g == out[parentOf[x]]
    ensures Written(locals, globals, parentOf, out[x := FromLocal(g, locals[x])], done + {x},
                    depth[x := depth[parentOf[x]] + 1])
  {
  }

  /** Writing the fresh entity `p` (not on the stack) and pushing its
      children with its new world transform keeps the stack's side. */
  lemma PushFrontier(locals: map<Entity, Transform>, globals: map<Entity, GlobalTransform>,
                     children: map<Entity, seq<Entity>>, parentOf: map<Entity, Entity>,
                     out: map<Entity, GlobalTransform>, done: set<Entity>,
                     stack: seq<(GlobalTransform, Entity)>, p: Entity, v: GlobalTransform)
    requires HierarchyConsistent(children, parentOf)
    requires done <= out.Keys && p !in done && (p in parentOf ==> parentOf[p] in done)
    requires forall c {:trigger parentOf[c]} :: c in done && c in parentOf ==> parentOf[c] in done
    requires NoDup(Pending(stack)) && p !in Pending(stack)
    requires forall i :: 0 <= i < |stack| ==> Awaiting(parentOf, out, done, stack[i])
    requires forall c :: IsChild(locals, globals, parentOf, c) && parentOf[c] in done && c !in done ==>
               c in Pending(stack) || c == p
    ensures Frontier(locals, globals, parentOf, out[p := v], done + {p}, stack + Tagged(v, Kids(children, p)))
  {
    var ks := Kids(children, p);
    PendingPush(stack, v, ks);
    KidsOf(children, parentOf, p);
    forall c | c in ks
      ensures c !in Pending(stack)
    {
    }
    NoDupAppend(Pending(stack), ks);
    var out', done', s' := out[p := v], done + {p}, stack + Tagged(v, ks);
    forall i | 0 <= i < |s'|
      ensures Awaiting(parentOf, out', done', s'[i])
    {
      if i < |stack| {
        assert Pending(stack)[i] == stack[i].1;
        assert Awaiting(parentOf, out, done, stack[i]);
      } else {
        var c := ks[i - |stack|];
        assert s'[i] == (v, c) && c in ks && parentOf[c] == p;
      }
    }
  }

  /** Popping the top of the stack keeps every fact about the rest of it. */
  lemma PopFrontier(locals: map<Entity, Transform>, globals: map<Entity, GlobalTransform>,
                    parentOf: map<Entity, Entity>,
                    out: map<Entity, GlobalTransform>, done: set<Entity>,
                    stack: seq<(GlobalTransform, Entity)>)
    requires Frontier(locals, globals, parentOf, out, done, stack)
    requires |stack| > 0
    ensures var rest, x := stack[..|stack| - 1], stack[|stack| - 1];
            && NoDup(Pending(rest)) && x.1 !in Pending(rest) && Awaiting(parentOf, out, done, x)
            && (forall i :: 0 <= i < |rest| ==> Awaiting(parentOf, out, done, rest[i]))
            && (forall c :: IsChild(locals, globals, parentOf, c) && parentOf[c] in done && c !in done ==>
                  c in Pending(rest) || c == x.1)
  {
    PendingPop(stack);
  }

  /** Writing from_root to a fresh root and pushing its children keeps the
      whole walk invariant. */
  lemma RootStep(locals: map<Entity, Transform>, globals: map<Entity, GlobalTransform>,
                 children: map<Entity, seq<Entity>>, parentOf: map<Entity, Entity>,
                 out: map<Entity, GlobalTransform>, done: set<Entity>, depth: map<Entity, nat>,
                 stack: seq<(GlobalTransform, Entity)>, r: Entity)
    requires HierarchyConsistent(children, parentOf)
    requires Walk(locals, globals, parentOf, out, done, depth, stack)
    requires IsRoot(locals, globals, parentOf, r) && r !in done
    ensures Walk(locals, globals, parentOf, out[r := FromRoot(locals[r])], done + {r}, depth[r := 0],
                 stack + Tagged(FromRoot(locals[r]), Kids(children, r)))
  {
    forall i | 0 <= i < |stack|
      ensures Pending(stack)[i] != r
    {
      assert Awaiting(parentOf, out, done, stack[i]);
    }
    RootWritten(locals, globals, parentOf, out, done, depth, r);
    PushFrontier(locals, globals, children, parentOf, out, done, stack, r, FromRoot(locals[r]));
  }

  /** Writing from_local to a popped child and pushing its children keeps
      the whole walk invariant, and the child was not written before. */
  lemma ChildStep(locals: map<Entity, Transform>, globals: map<Entity, GlobalTransform>,
                  children: map<Entity, seq<Entity>>, parentOf: map<Entity, Entity>,
                  out: map<Entity, GlobalTransform>, done: set<Entity>, depth: map<Entity, nat>,
                  stack: seq<(GlobalTransform, Entity)>, g: GlobalTransform, x: Entity)
    requires HierarchyConsistent(children, parentOf)
    requires Walk(locals, globals, parentOf, out, done, depth, stack + [(g, x)])
    requires IsChild(locals, globals, parentOf, x)
    ensures x !in done && parentOf[x] in depth
    ensures Walk(locals, globals, parentOf, out[x := FromLocal(g, locals[x])], done + {x},
                 depth[x := depth[parentOf[x]] + 1], stack + Tagged(FromLocal(g, locals[x]), Kids(children, x)))
  {
    var s := stack + [(g, x)];
    assert s[..|s| - 1] == stack;
    PopFrontier(locals, globals, parentOf, out, done, s);
    ChildWritten(locals, globals, parentOf, out, done, depth, x, g);
    PushFrontier(locals, globals, children, parentOf, out, done, stack, x, FromLocal(g, locals[x]));
  }

  /** Popping an entity the children query does not match changes nothing
      but the stack. */
  lemma SkipStep(locals: map<Entity, Transform>, globals: map<Entity, GlobalTransform>,
                 parentOf: map<Entity, Entity>,
                 out: map<Entity, GlobalTransform>, done: set<Entity>,
                 stack: seq<(GlobalTransform, Entity)>)
    requires Frontier(locals, globals, parentOf, out, done, stack)
    requires |stack| > 0 && !IsChild(locals, globals, parentOf, stack[|stack| - 1].1)
    ensures Frontier(locals, globals, parentOf, out, done, stack[..|stack| - 1])
  {
    PopFrontier(locals, globals, parentOf, out, done, stack);
  }

  /** Once every root is written and the stack is empty, the walk has
      established the local propagation rules. */
  lemma WalkFinished(locals: map<Entity, Transform>, globals: map<Entity, GlobalTransform>,
                     parentOf: map<Entity, Entity>,
                     out: map<Entity, GlobalTransform>, done: set<Entity>, depth: map<Entity, nat>)
    requires Walk(locals, globals, parentOf, out, done, depth, [])
    requires forall e :: IsRoot(locals, globals, parentOf, e) ==> e in done
    ensures LocallyPropagated(locals, globals, parentOf, out, done, depth)
  {
    assert Pending([]) == [];
  }

  lemma PrefixDone(roots: seq<Entity>, k: nat, done0: set<Entity>, done: set<Entity>)
    requires k < |roots| && done == done0 + {roots[k]}
    requires forall i :: 0 <= i < k ==> roots[i] in done0
    ensures forall i :: 0 <= i < k + 1 ==> roots[i] in done
  {
  }

  /** One turn of the first loop: write from_root to the root `r` and push
      (its new world transform, child) for each of its children. */
  method SeedRoot(locals: map<Entity, Transform>, globals: map<Entity, GlobalTransform>,
                  children: map<Entity, seq<Entity>>, parentOf: map<Entity, Entity>,
                  out0: map<Entity, GlobalTransform>, stack0: seq<(GlobalTransform, Entity)>,
                  ghost done0: set<Entity>, ghost depth0: map<Entity, nat>, r: Entity)
    returns (out: map<Entity, GlobalTransform>, stack: seq<(GlobalTransform, Entity)>,
             ghost done: set<Entity>, ghost depth: map<Entity, nat>)
    requires HierarchyConsistent(children, parentOf)
    requires Walk(locals, globals, parentOf, out0, done0, depth0, stack0)
    requires IsRoot(locals, globals, parentOf, r) && r !in done0
    ensures Walk(locals, globals, parentOf, out, done, depth, stack)
    ensures done == done0 + {r}
  {
    RootStep(locals, globals, children, parentOf, out0, done0, depth0, stack0, r);
    out := out0[r := FromRoot(locals[r])];
    done := done0 + {r};
    depth := depth0[r := 0];
    stack := PushChildren(stack0, FromRoot(locals[r]), Kids(children, r));
  }

  /** The first loop of the pass: each parentless entity, in the query's
      order, gets from_root and pushes (its new world transform, child) for
      each of its children. */
  method SeedRoots(locals: map<Entity, Transform>, globals: map<Entity, GlobalTransform>,
                   children: map<Entity, seq<Entity>>, parentOf: map<Entity, Entity>, roots: seq<Entity>)
    returns (out: map<Entity, GlobalTransform>, stack: seq<(GlobalTransform, Entity)>,
             ghost done: set<Entity>, ghost depth: map<Entity, nat>)
    requires HierarchyConsistent(children, parentOf)
    requires NoDup(roots) && forall e :: e in roots <==> IsRoot(locals, globals, parentOf, e)
    ensures Walk(locals, globals, parentOf, out, done, depth, stack)
    ensures forall e :: IsRoot(locals, globals, parentOf, e) ==> e in done
  {
    out := globals;
    done, depth := {}, map[];
    stack := [];
    var k := 0;
    while k < |roots|
      invariant 0 <= k <= |roots|
      invariant Walk(locals, globals, parentOf, out, done, depth, stack)
      invariant forall i :: 0 <= i < k ==> roots[i] in done
      invariant forall i :: k <= i < |roots| ==> roots[i] !in done
    {
      var r := roots[k];
      assert r in roots;
      ghost var done0 := done;
      out, stack, done, depth := SeedRoot(locals, globals, children, parentOf, out, stack, done, depth, r);
      PrefixDone(roots, k, done0, done);
      k := k + 1;
    }
  }

  /** One turn of the `while let` loop: pop (parent world, x); if x has
      both transforms and a ChildOf, write from_local and push x's children. */
  method Visit(locals: map<Entity, Transform>, globals: map<Entity, GlobalTransform>,
               children: map<Entity, seq<Entity>>, parentOf: map<Entity, Entity>,
               out0: map<Entity, GlobalTransform>, stack0: seq<(GlobalTransform, Entity)>,
               ghost done0: set<Entity>, ghost depth0: map<Entity, nat>)
    returns (out: map<Entity, GlobalTransform>, stack: seq<(GlobalTransform, Entity)>,
             ghost done: set<Entity>, ghost depth: map<Entity, nat>)
    requires HierarchyConsistent(children, parentOf)
    requires Walk(locals, globals, parentOf, out0, done0, depth0, stack0)
    requires |stack0| > 0
    ensures Walk(locals, globals, parentOf, out, done, depth, stack)
    ensures done0 <= done
    ensures parentOf.Keys - done < parentOf.Keys - done0 || (done == done0 && |stack| < |stack0|)
  {
    out, done, depth := out0, done0, depth0;
    var parentGlobal, x := stack0[|stack0| - 1].0, stack0[|stack0| - 1].1;
    stack := stack0[..|stack0| - 1];
    assert stack0 == stack + [(parentGlobal, x)];
    if IsChild(locals, globals, parentOf, x) {
      ChildStep(locals, globals, children, parentOf, out, done, depth, stack, parentGlobal, x);
      assert x in parentOf.Keys - done0 && x !in parentOf.Keys - (done0 + {x});
      var global := FromLocal(parentGlobal, locals[x]);
      out := out[x := global];
      done := done + {x};
      depth := depth[x := depth[parentOf[x]] + 1];
      stack := PushChildren(stack, global, Kids(children, x));
    } else {
      SkipStep(locals, globals, parentOf, out, done, stack0);
    }
  }

  /** `update_global_transforms_system` of the systems module: every
      parentless entity (in the query's order `roots`) gets from_root and
      pushes its children; then the stack is popped, and each popped entity
      that has both transforms and a ChildOf gets from_local of the world
      transform pushed with it and pushes its own children. Termination rests
      on the relationship invariant alone: each entity is pushed at most once,
      by its one parent, so no acyclicity assumption is needed. */
  method Propagate(locals: map<Entity, Transform>, globals: map<Entity, GlobalTransform>,
                   children: map<Entity, seq<Entity>>, parentOf: map<Entity, Entity>, roots: seq<Entity>)
    returns (out: map<Entity, GlobalTransform>, ghost done: set<Entity>, ghost depth: map<Entity, nat>)
    requires HierarchyConsistent(children, parentOf)
    requires NoDup(roots) && forall e :: e in roots <==> IsRoot(locals, globals, parentOf, e)
    ensures out.Keys == globals.Keys && done <= globals.Keys
    ensures forall e :: IsRoot(locals, globals, parentOf, e) ==> e in done && out[e] == FromRoot(locals[e])
    ensures forall e :: e in done && e in parentOf ==>
              IsChild(locals, globals, parentOf, e) && parentOf[e] in done &&
              out[e] == FromLocal(out[parentOf[e]], locals[e])
    ensures forall e :: IsChild(locals, globals, parentOf, e) && parentOf[e] in done ==> e in done
    ensures forall e :: e in globals && e !in done ==> out[e] == globals[e]
    ensures depth.Keys == done
    ensures forall e :: e in done ==> ChainWorld(locals, globals, parentOf, e, depth[e]) == Some(out[e])
    ensures forall e, n :: ChainWorld(locals, globals, parentOf, e, n).Some? ==>
              e in done && out[e] == ChainWorld(locals, globals, parentOf, e, n).value
  {
    var stack;
    out, stack, done, depth := SeedRoots(locals, globals, children, parentOf, roots);
    while |stack| > 0
      invariant Walk(locals, globals, parentOf, out, done, depth, stack)
      invariant forall e :: IsRoot(locals, globals, parentOf, e) ==> e in done
      decreases parentOf.Keys - done, |stack|
    {
      out, stack, done, depth := Visit(locals, globals, children, parentOf, out, stack, done, depth);
    }
    WalkFinished(locals, globals, parentOf, out, done, depth);
    PropagatedMatchesChain(locals, globals, parentOf, out, done, depth);
  }

  /** The world transforms after `ensure_global_transform_system`: every
      entity with a local transform and no world transform gets from_root. */
  function WithGlobals(locals: map<Entity, Transform>, globals: map<Entity, GlobalTransform>)
    : (r: map<Entity, GlobalTransform>)
    ensures r.Keys == globals.Keys + locals.Keys
    ensures forall e :: e in globals ==> r[e] == globals[e]
    ensures forall e :: e in locals && e !in globals ==> r[e] == FromRoot(locals[e])
  {
    map e | e in globals.Keys + locals.Keys :: if e in globals then globals[e] else FromRoot(locals[e])
  }

  /** Adding the missing world transforms twice is the same as once. */
  lemma WithGlobalsIdempotent(locals: map<Entity, Transform>, globals: map<Entity, GlobalTransform>)
    ensures WithGlobals(locals, WithGlobals(locals, globals)) == WithGlobals(locals, globals)
  {
  }

  /** Afterwards the two propagation queries depend on ChildOf alone: an
      entity with a local transform is a root exactly when it has no parent. */
  lemma WithGlobalsCompletesQueries(locals: map<Entity, Transform>, globals: map<Entity, GlobalTransform>,
                                    parentOf: map<Entity, Entity>, e: Entity)
    requires e in locals
    ensures IsRoot(locals, WithGlobals(locals, globals), parentOf, e) <==> e !in parentOf
    ensures IsChild(locals, WithGlobals(locals, globals), parentOf, e) <==> e in parentOf
  {
  }

  /** `ensure_global_transform_system`: for each entity of the query (a
      local transform, no world transform), insert from_root unless a world
      transform is already there. */
  method EnsureGlobalTransforms(locals: map<Entity, Transform>, globals: map<Entity, GlobalTransform>,
                                missing: seq<Entity>)
    returns (out: map<Entity, GlobalTransform>)
    requires forall e :: e in missing <==> e in locals && e !in globals
    ensures out == WithGlobals(locals, globals)
  {
    out := globals;
    var k := 0;
    while k < |missing|
      invariant 0 <= k <= |missing|
      invariant out.Keys == globals.Keys + (set i | 0 <= i < k :: missing[i])
      invariant forall e :: e in out ==> out[e] == WithGlobals(locals, globals)[e]
    {
      var e := missing[k];
      if e !in out {
        out := out[e := FromRoot(locals[e])];
      }
      k := k + 1;
    }
    assert forall e :: e in locals && e !in globals ==> exists i :: 0 <= i < k && missing[i] == e;
  }
}
