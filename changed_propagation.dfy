/** The transform propagation pass of the main module: it starts from every
    entity whose local transform changed this step, whether or not it has a
    parent, and walks down the Children lists with a stack of
    (optional parent world transform, entity) pairs. */
module ChangedPropagation {
  import opened Geometry
  import opened Components
  import opened Hierarchy
  import Propagation

  /** A stack entry: the world transform of the parent that pushed it (None
      would mean "compose as a root"), and the entity to visit. */
  type Entry = (Option<GlobalTransform>, Entity)

  /** The Children lists form a forest of finite height: a ghost rank that
      strictly decreases from parent to child. Without it the walk of the
      main module loops forever on a cycle of Children links. */
  ghost predicate Ranked(children: map<Entity, seq<Entity>>, rank: map<Entity, nat>) {
    && (forall p :: p in children ==> p in rank)
    && (forall p, c :: p in children && c in children[p] ==> c in rank && rank[c] < rank[p])
  }

  /** The number of visits the walk makes below and at `e`. */
  ghost function Size(children: map<Entity, seq<Entity>>, rank: map<Entity, nat>, e: Entity): nat
    requires Ranked(children, rank)
    decreases if e in children then rank[e] else 0, 1, 0
  {
    if e in children then 1 + SizeList(children, rank, children[e], rank[e]) else 1
  }

  ghost function SizeList(children: map<Entity, seq<Entity>>, rank: map<Entity, nat>,
                          cs: seq<Entity>, bound: nat): nat
    requires Ranked(children, rank)
    requires forall c :: c in cs ==> c in rank && rank[c] < bound
    decreases bound, 0, |cs|
  {
    if |cs| == 0 then 0
    else
      assert cs[|cs| - 1] in cs;
      SizeList(children, rank, cs[..|cs| - 1], bound) + Size(children, rank, cs[|cs| - 1])
  }

  /** The number of visits left for a whole stack. */
  ghost function StackSize(children: map<Entity, seq<Entity>>, rank: map<Entity, nat>, stack: seq<Entry>): nat
    requires Ranked(children, rank)
  {
    if |stack| == 0 then 0
    else StackSize(children, rank, stack[..|stack| - 1]) + Size(children, rank, stack[|stack| - 1].1)
  }

  /** `for &child in children { stack.push((Some(g), child)) }`. */
  function Pushed(g: GlobalTransform, cs: seq<Entity>): (s: seq<Entry>)
    ensures |s| == |cs| && forall i :: 0 <= i < |cs| ==> s[i] == (Some(g), cs[i])
  {
    seq(|cs|, i requires 0 <= i < |cs| => (Some(g), cs[i]))
  }

  lemma {:induction false} StackSizeAppend(children: map<Entity, seq<Entity>>, rank: map<Entity, nat>,
                                           a: seq<Entry>, b: seq<Entry>)
    requires Ranked(children, rank)
    ensures StackSize(children, rank, a + b) == StackSize(children, rank, a) + StackSize(children, rank, b)
    decreases |b|
  {
    if |b| > 0 {
      var b' := b[..|b| - 1];
      assert (a + b)[..|a + b| - 1] == a + b';
      StackSizeAppend(children, rank, a, b');
    } else {
      assert a + b == a;
    }
  }

  lemma {:induction false} PushedSize(children: map<Entity, seq<Entity>>, rank: map<Entity, nat>,
                                      g: GlobalTransform, cs: seq<Entity>, bound: nat)
    requires Ranked(children, rank)
    requires forall c :: c in cs ==> c in rank && rank[c] < bound
    ensures StackSize(children, rank, Pushed(g, cs)) == SizeList(children, rank, cs, bound)
    decreases |cs|
  {
    if |cs| > 0 {
      var cs' := cs[..|cs| - 1];
      assert Pushed(g, cs)[..|cs| - 1] == Pushed(g, cs');
      PushedSize(children, rank, g, cs', bound);
    }
  }

  /** Visiting `e` and pushing its children costs one visit of the budget. */
  lemma VisitShrinks(children: map<Entity, seq<Entity>>, rank: map<Entity, nat>,
                     rest: seq<Entry>, e: Entity, g: GlobalTransform)
    requires Ranked(children, rank)
    ensures StackSize(children, rank, rest + Pushed(g, Kids(children, e)))
         == StackSize(children, rank, rest) + Size(children, rank, e) - 1
  {
    StackSizeAppend(children, rank, rest, Pushed(g, Kids(children, e)));
    if e in children {
      PushedSize(children, rank, g, children[e], rank[e]);
    }
  }

  /** The world transform a popped entry gives its entity. */
  function Compose(parent: Option<GlobalTransform>, local: Transform): GlobalTransform {
    match parent
    case Some(g) => FromLocal(g, local)
    case None => FromRoot(local)
  }

  /** The `while let Some(..) = stack.pop()` loop: an entity with both
      transforms is written and pushes its children; any other is skipped. */
  ghost function Drain(locals: map<Entity, Transform>, children: map<Entity, seq<Entity>>, rank: map<Entity, nat>,
                       out: map<Entity, GlobalTransform>, stack: seq<Entry>): map<Entity, GlobalTransform>
    requires Ranked(children, rank)
    decreases StackSize(children, rank, stack)
  {
    if |stack| == 0 then out
    else
      var rest, e := stack[..|stack| - 1], stack[|stack| - 1].1;
      if e in locals && e in out then
        var gt := Compose(stack[|stack| - 1].0, locals[e]);
        VisitShrinks(children, rank, rest, e, gt);
        Drain(locals, children, rank, out[e := gt], rest + Pushed(gt, Kids(children, e)))
      else
        Drain(locals, children, rank, out, rest)
  }

  /** The first loop: every changed entity, in the query's order, gets
      from_root and pushes its children. Returns the new world transforms and
      the stack. */
  function Seed(locals: map<Entity, Transform>, globals: map<Entity, GlobalTransform>,
                children: map<Entity, seq<Entity>>, seeds: seq<Entity>): (r: (map<Entity, GlobalTransform>, seq<Entry>))
    requires forall e :: e in seeds ==> e in locals
    ensures r.0.Keys == globals.Keys + (set x | x in seeds)
    ensures forall e :: e in seeds ==> r.0[e] == FromRoot(locals[e])
    ensures forall e :: e in globals && e !in seeds ==> r.0[e] == globals[e]
  {
    if |seeds| == 0 then (globals, [])
    else
      var prev := Seed(locals, globals, children, seeds[..|seeds| - 1]);
      var e := seeds[|seeds| - 1];
      assert forall x :: x in seeds ==> x in seeds[..|seeds| - 1] || x == e;
      var gt := FromRoot(locals[e]);
      (prev.0[e := gt], prev.1 + Pushed(gt, Kids(children, e)))
  }

  /** The whole pass of the main module, as a function of its inputs. */
  ghost function ChangedPass(locals: map<Entity, Transform>, globals: map<Entity, GlobalTransform>,
                             children: map<Entity, seq<Entity>>, rank: map<Entity, nat>,
                             seeds: seq<Entity>): map<Entity, GlobalTransform>
    requires Ranked(children, rank)
    requires forall e :: e in seeds ==> e in locals
  {
    var s := Seed(locals, globals, children, seeds);
    Drain(locals, children, rank, s.0, s.1)
  }

  /** The inner loop of both phases: push (Some(g), child) for each child, in order. */
  method PushKids(stack0: seq<Entry>, g: GlobalTransform, cs: seq<Entity>) returns (stack: seq<Entry>)
    ensures stack == stack0 + Pushed(g, cs)
  {
    stack := stack0;
    var j := 0;
    while j < |cs|
      invariant 0 <= j <= |cs|
      invariant stack == stack0 + Pushed(g, cs[..j])
    {
      assert Pushed(g, cs[..j + 1]) == Pushed(g, cs[..j]) + [(Some(g), cs[j])];
      stack := stack + [(Some(g), cs[j])];
      j := j + 1;
    }
    assert cs[..j] == cs;
  }

  /** The first loop of the pass, over the changed entities in query order. */
  method SeedChanged(locals: map<Entity, Transform>, globals: map<Entity, GlobalTransform>,
                     children: map<Entity, seq<Entity>>, seeds: seq<Entity>)
    returns (out: map<Entity, GlobalTransform>, stack: seq<Entry>)
    requires forall e :: e in seeds ==> e in locals
    ensures (out, stack) == Seed(locals, globals, children, seeds)
  {
    out, stack := globals, [];
    var k := 0;
    while k < |seeds|
      invariant 0 <= k <= |seeds|
      invariant (out, stack) == Seed(locals, globals, children, seeds[..k])
    {
      var e := seeds[k];
      assert seeds[..k + 1][..k] == seeds[..k];
      var gt := FromRoot(locals[e]);
      out := out[e := gt];
      stack := PushKids(stack, gt, Kids(children, e));
      k := k + 1;
    }
    assert seeds[..k] == seeds;
  }

  /** The second loop of the pass: pop until the stack is empty. */
  method DrainStack(locals: map<Entity, Transform>, children: map<Entity, seq<Entity>>, ghost rank: map<Entity, nat>,
                    out0: map<Entity, GlobalTransform>, stack0: seq<Entry>)
    returns (out: map<Entity, GlobalTransform>)
    requires Ranked(children, rank)
    ensures out == Drain(locals, children, rank, out0, stack0)
  {
    out := out0;
    var stack := stack0;
    while |stack| > 0
      invariant Drain(locals, children, rank, out, stack) == Drain(locals, children, rank, out0, stack0)
      decreases StackSize(children, rank, stack)
    {
      var parent, e := stack[|stack| - 1].0, stack[|stack| - 1].1;
      stack := stack[..|stack| - 1];
      if e in locals && e in out {
        var gt := Compose(parent, locals[e]);
        VisitShrinks(children, rank, stack, e, gt);
        out := out[e := gt];
        stack := PushKids(stack, gt, Kids(children, e));
      }
    }
  }

  /** `update_global_transforms_system` of the main module. `seeds` lists,
      in query order, the entities with both transforms whose local
      transform changed. The ghost `rank` witnesses that the Children lists
      have no cycle, which the loop needs to terminate. */
  method PropagateChanged(locals: map<Entity, Transform>, globals: map<Entity, GlobalTransform>,
                          children: map<Entity, seq<Entity>>, ghost rank: map<Entity, nat>, seeds: seq<Entity>)
    returns (out: map<Entity, GlobalTransform>)
    requires Ranked(children, rank)
    requires forall e :: e in seeds ==> e in locals && e in globals
    ensures out == ChangedPass(locals, globals, children, rank, seeds)
  {
    var seeded, stack := SeedChanged(locals, globals, children, seeds);
    out := DrainStack(locals, children, rank, seeded, stack);
  }

  /** The pass writes only entities that already have a world transform and
      keeps every other world transform of an entity without a local one. */
  lemma {:induction false} DrainFrame(locals: map<Entity, Transform>, children: map<Entity, seq<Entity>>,
                                      rank: map<Entity, nat>, out: map<Entity, GlobalTransform>, stack: seq<Entry>)
    requires Ranked(children, rank)
    ensures Drain(locals, children, rank, out, stack).Keys == out.Keys
    ensures forall e :: e in out && e !in locals ==> Drain(locals, children, rank, out, stack)[e] == out[e]
    decreases StackSize(children, rank, stack)
  {
    if |stack| > 0 {
      var rest, e := stack[..|stack| - 1], stack[|stack| - 1].1;
      if e in locals && e in out {
        var gt := Compose(stack[|stack| - 1].0, locals[e]);
        VisitShrinks(children, rank, rest, e, gt);
        DrainFrame(locals, children, rank, out[e := gt], rest + Pushed(gt, Kids(children, e)));
      } else {
        DrainFrame(locals, children, rank, out, rest);
      }
    }
  }

  /** Every changed entity is written, and nothing else changes when no
      entity changed. */
  lemma ChangedPassFrame(locals: map<Entity, Transform>, globals: map<Entity, GlobalTransform>,
                         children: map<Entity, seq<Entity>>, rank: map<Entity, nat>, seeds: seq<Entity>)
    requires Ranked(children, rank)
    requires forall e :: e in seeds ==> e in locals && e in globals
    ensures ChangedPass(locals, globals, children, rank, seeds).Keys == globals.Keys
    ensures forall e :: e in globals && e !in locals ==>
              ChangedPass(locals, globals, children, rank, seeds)[e] == globals[e]
    ensures seeds == [] ==> ChangedPass(locals, globals, children, rank, seeds) == globals
  {
    var s := Seed(locals, globals, children, seeds);
    DrainFrame(locals, children, rank, s.0, s.1);
  }

  // ----- the pass started from the roots -----

  /** Every entry carries a parent world transform. */
  predicate AllKnown(stack: seq<Entry>) {
    forall i :: 0 <= i < |stack| ==> stack[i].0.Some?
  }

  /** A stack of known entries with the `Some` dropped: the stack of the
      systems module's pass. */
  function Strip(stack: seq<Entry>): (s: seq<(GlobalTransform, Entity)>)
    requires AllKnown(stack)
    ensures |s| == |stack| && forall i :: 0 <= i < |stack| ==> s[i] == (stack[i].0.value, stack[i].1)
  {
    seq(|stack|, i requires 0 <= i < |stack| => (stack[i].0.value, stack[i].1))
  }

  lemma StripPush(stack: seq<Entry>, g: GlobalTransform, cs: seq<Entity>)
    requires AllKnown(stack)
    ensures AllKnown(stack + Pushed(g, cs))
    ensures Strip(stack + Pushed(g, cs)) == Strip(stack) + Tagged(g, cs)
  {
  }

  lemma StripPop(stack: seq<Entry>)
    requires AllKnown(stack) && |stack| > 0
    ensures AllKnown(stack[..|stack| - 1])
    ensures Strip(stack) == Strip(stack[..|stack| - 1]) + [(stack[|stack| - 1].0.value, stack[|stack| - 1].1)]
  {
  }

  /** The first loop pushes known entries only, whatever the seeds. */
  lemma {:induction false} SeedEntriesKnown(locals: map<Entity, Transform>, globals: map<Entity, GlobalTransform>,
                                            children: map<Entity, seq<Entity>>, seeds: seq<Entity>)
    requires forall e :: e in seeds ==> e in locals
    ensures AllKnown(Seed(locals, globals, children, seeds).1)
    decreases |seeds|
  {
    if |seeds| > 0 {
      var front := seeds[..|seeds| - 1];
      SeedEntriesKnown(locals, globals, children, front);
      var e := seeds[|seeds| - 1];
      StripPush(Seed(locals, globals, children, front).1, FromRoot(locals[e]), Kids(children, e));
    }
  }

  /** Popping a known entry never takes the `None` branch: the entity gets
      from_local of the parent world transform pushed with it, and the
      stack stays known. With `SeedEntriesKnown`, the from_root branch of
      the second loop is never taken. */
  lemma DrainStepKnown(locals: map<Entity, Transform>, children: map<Entity, seq<Entity>>,
                       rank: map<Entity, nat>, out: map<Entity, GlobalTransform>, stack: seq<Entry>)
    requires Ranked(children, rank) && AllKnown(stack) && |stack| > 0
    ensures var rest, top := stack[..|stack| - 1], stack[|stack| - 1];
            && AllKnown(rest)
            && (top.1 in locals && top.1 in out ==>
                  var gt := FromLocal(top.0.value, locals[top.1]);
                  && AllKnown(rest + Pushed(gt, Kids(children, top.1)))
                  && Drain(locals, children, rank, out, stack)
                       == Drain(locals, children, rank, out[top.1 := gt], rest + Pushed(gt, Kids(children, top.1))))
            && (top.1 !in locals || top.1 !in out ==>
                  Drain(locals, children, rank, out, stack) == Drain(locals, children, rank, out, rest))
  {
    var rest, top := stack[..|stack| - 1], stack[|stack| - 1];
    StripPop(stack);
    if top.1 in locals {
      StripPush(rest, FromLocal(top.0.value, locals[top.1]), Kids(children, top.1));
    }
  }

  /** The entity has a chain of ChildOf links to a root. */
  ghost predicate HasChain(locals: map<Entity, Transform>, globals: map<Entity, GlobalTransform>,
                           parentOf: map<Entity, Entity>, e: Entity) {
    exists n :: ChainWorld(locals, globals, parentOf, e, n).Some?
  }

  /** The chain facts a finished walk establishes. */
  ghost predicate FollowsChains(locals: map<Entity, Transform>, globals: map<Entity, GlobalTransform>,
                                parentOf: map<Entity, Entity>, r: map<Entity, GlobalTransform>) {
    && r.Keys == globals.Keys
    && (forall e, n :: ChainWorld(locals, globals, parentOf, e, n).Some? ==>
          e in r && r[e] == ChainWorld(locals, globals, parentOf, e, n).value)
    && (forall e :: e in globals && !HasChain(locals, globals, parentOf, e) ==> r[e] == globals[e])
  }

  /** With the stack empty and every root written, the walk invariant gives
      the chain compositions. */
  lemma WalkEndsOnChains(locals: map<Entity, Transform>, globals: map<Entity, GlobalTransform>,
                         parentOf: map<Entity, Entity>, out: map<Entity, GlobalTransform>,
                         done: set<Entity>, depth: map<Entity, nat>)
    requires Walk(locals, globals, parentOf, out, done, depth, [])
    requires forall e :: IsRoot(locals, globals, parentOf, e) ==> e in done
    ensures FollowsChains(locals, globals, parentOf, out)
  {
    Propagation.WalkFinished(locals, globals, parentOf, out, done, depth);
    PropagatedMatchesChain(locals, globals, parentOf, out, done, depth);
    assert forall e :: e in done ==> HasChain(locals, globals, parentOf, e);
  }

  /** Popping a known entry whose entity the second loop writes: it is a
      child the systems module's pass writes the same way. */
  lemma KnownChildStep(locals: map<Entity, Transform>, globals: map<Entity, GlobalTransform>,
                       children: map<Entity, seq<Entity>>, parentOf: map<Entity, Entity>,
                       out: map<Entity, GlobalTransform>, done: set<Entity>, depth: map<Entity, nat>,
                       stack: seq<Entry>)
    requires HierarchyConsistent(children, parentOf)
    requires AllKnown(stack) && |stack| > 0 && Walk(locals, globals, parentOf, out, done, depth, Strip(stack))
    requires stack[|stack| - 1].1 in locals && stack[|stack| - 1].1 in out
    ensures var rest, g, x := stack[..|stack| - 1], stack[|stack| - 1].0.value, stack[|stack| - 1].1;
            && x in parentOf && parentOf[x] in depth
            && var gt := FromLocal(g, locals[x]);
               && AllKnown(rest + Pushed(gt, Kids(children, x)))
               && Walk(locals, globals, parentOf, out[x := gt], done + {x}, depth[x := depth[parentOf[x]] + 1],
                       Strip(rest + Pushed(gt, Kids(children, x))))
  {
    var rest, g, x := stack[..|stack| - 1], stack[|stack| - 1].0.value, stack[|stack| - 1].1;
    StripPop(stack);
    assert Strip(stack)[|stack| - 1] == (g, x);
    assert Awaiting(parentOf, out, done, Strip(stack)[|stack| - 1]);
    Propagation.ChildStep(locals, globals, children, parentOf, out, done, depth, Strip(rest), g, x);
    StripPush(rest, FromLocal(g, locals[x]), Kids(children, x));
  }

  /** Popping a known entry whose entity the second loop skips: the
      systems module's pass skips it too. */
  lemma KnownSkipStep(locals: map<Entity, Transform>, globals: map<Entity, GlobalTransform>,
                      parentOf: map<Entity, Entity>,
                      out: map<Entity, GlobalTransform>, done: set<Entity>, depth: map<Entity, nat>,
                      stack: seq<Entry>)
    requires AllKnown(stack) && |stack| > 0 && Walk(locals, globals, parentOf, out, done, depth, Strip(stack))
    requires stack[|stack| - 1].1 !in locals || stack[|stack| - 1].1 !in out
    ensures AllKnown(stack[..|stack| - 1])
    ensures Walk(locals, globals, parentOf, out, done, depth, Strip(stack[..|stack| - 1]))
  {
    StripPop(stack);
    assert Strip(stack)[|stack| - 1].1 == stack[|stack| - 1].1;
    Propagation.SkipStep(locals, globals, parentOf, out, done, Strip(stack));
    assert Strip(stack)[..|stack| - 1] == Strip(stack[..|stack| - 1]);
  }

  /** Draining a known stack from a state satisfying the walk invariant of
      the systems module's pass ends with the chain compositions. */
  lemma {:induction false} DrainFollowsChains(locals: map<Entity, Transform>, globals: map<Entity, GlobalTransform>,
                                              children: map<Entity, seq<Entity>>, parentOf: map<Entity, Entity>,
                                              rank: map<Entity, nat>, out: map<Entity, GlobalTransform>,
                                              done: set<Entity>, depth: map<Entity, nat>, stack: seq<Entry>)
    requires HierarchyConsistent(children, parentOf) && Ranked(children, rank)
    requires AllKnown(stack) && Walk(locals, globals, parentOf, out, done, depth, Strip(stack))
    requires forall e :: IsRoot(locals, globals, parentOf, e) ==> e in done
    ensures FollowsChains(locals, globals, parentOf, Drain(locals, children, rank, out, stack))
    decreases StackSize(children, rank, stack)
  {
    if |stack| == 0 {
      assert Strip(stack) == [];
      WalkEndsOnChains(locals, globals, parentOf, out, done, depth);
    } else {
      var rest, g, x := stack[..|stack| - 1], stack[|stack| - 1].0.value, stack[|stack| - 1].1;
      DrainStepKnown(locals, children, rank, out, stack);
      if x in locals && x in out {
        KnownChildStep(locals, globals, children, parentOf, out, done, depth, stack);
        var gt := FromLocal(g, locals[x]);
        VisitShrinks(children, rank, rest, x, gt);
        DrainFollowsChains(locals, globals, children, parentOf, rank, out[x := gt], done + {x},
                           depth[x := depth[parentOf[x]] + 1], rest + Pushed(gt, Kids(children, x)));
      } else {
        KnownSkipStep(locals, globals, parentOf, out, done, depth, stack);
        DrainFollowsChains(locals, globals, children, parentOf, rank, out, done, depth, rest);
      }
    }
  }

  /** The entities of a list of seeds, each at depth 0. */
  function Listed(seeds: seq<Entity>): set<Entity> {
    set e | e in seeds
  }

  function AtDepthZero(seeds: seq<Entity>): map<Entity, nat> {
    map e | e in seeds :: 0
  }

  /** Writing from_root to one more root and pushing its children keeps
      the walk invariant over a known stack. */
  lemma KnownRootStep(locals: map<Entity, Transform>, globals: map<Entity, GlobalTransform>,
                      children: map<Entity, seq<Entity>>, parentOf: map<Entity, Entity>,
                      out: map<Entity, GlobalTransform>, done: set<Entity>, depth: map<Entity, nat>,
                      stack: seq<Entry>, r: Entity,
                      out': map<Entity, GlobalTransform>, done': set<Entity>, depth': map<Entity, nat>,
                      stack': seq<Entry>)
    requires HierarchyConsistent(children, parentOf)
    requires AllKnown(stack) && Walk(locals, globals, parentOf, out, done, depth, Strip(stack))
    requires IsRoot(locals, globals, parentOf, r) && r !in done
    requires out' == out[r := FromRoot(locals[r])] && done' == done + {r} && depth' == depth[r := 0]
    requires stack' == stack + Pushed(FromRoot(locals[r]), Kids(children, r))
    ensures AllKnown(stack') && Walk(locals, globals, parentOf, out', done', depth', Strip(stack'))
  {
    Propagation.RootStep(locals, globals, children, parentOf, out, done, depth, Strip(stack), r);
    StripPush(stack, FromRoot(locals[r]), Kids(children, r));
  }

  /** One more changed entity at the end of the query order. */
  lemma SeedSnoc(locals: map<Entity, Transform>, globals: map<Entity, GlobalTransform>,
                 children: map<Entity, seq<Entity>>, seeds: seq<Entity>, e: Entity)
    requires forall x :: x in seeds ==> x in locals
    requires e in locals
    ensures var prev := Seed(locals, globals, children, seeds);
            Seed(locals, globals, children, seeds + [e]) ==
            (prev.0[e := FromRoot(locals[e])], prev.1 + Pushed(FromRoot(locals[e]), Kids(children, e)))
  {
    assert (seeds + [e])[..|seeds|] == seeds;
  }

  /** The written set and the depths the last seed adds. */
  lemma ListedLast(seeds: seq<Entity>)
    requires |seeds| > 0
    ensures Listed(seeds) == Listed(seeds[..|seeds| - 1]) + {seeds[|seeds| - 1]}
    ensures AtDepthZero(seeds) == AtDepthZero(seeds[..|seeds| - 1])[seeds[|seeds| - 1] := 0]
  {
    assert seeds == seeds[..|seeds| - 1] + [seeds[|seeds| - 1]];
  }

  /** Seeding distinct roots establishes the walk invariant, with each root
      written at depth 0. */
  lemma {:induction false} SeedWalks(locals: map<Entity, Transform>, globals: map<Entity, GlobalTransform>,
                                     children: map<Entity, seq<Entity>>, parentOf: map<Entity, Entity>,
                                     seeds: seq<Entity>)
    requires HierarchyConsistent(children, parentOf)
    requires NoDup(seeds) && forall e :: e in seeds ==> e in locals && e in globals && e !in parentOf
    ensures AllKnown(Seed(locals, globals, children, seeds).1)
    ensures Walk(locals, globals, parentOf, Seed(locals, globals, children, seeds).0, Listed(seeds),
                 AtDepthZero(seeds), Strip(Seed(locals, globals, children, seeds).1))
    decreases |seeds|
  {
    if |seeds| == 0 {
      assert Strip([]) == [] && Pending([]) == [];
    } else {
      var n := |seeds| - 1;
      var front, r := seeds[..n], seeds[n];
      assert r !in front by {
        forall i | 0 <= i < n ensures front[i] != r { assert front[i] == seeds[i]; }
      }
      assert NoDup(front) by {
        forall i, j | 0 <= i < j < n ensures front[i] != front[j] { assert front[i] == seeds[i] && front[j] == seeds[j]; }
      }
      assert seeds == front + [r];
      SeedSnoc(locals, globals, children, front, r);
      ListedLast(seeds);
      SeedWalks(locals, globals, children, parentOf, front);
      var prev, next := Seed(locals, globals, children, front), Seed(locals, globals, children, seeds);
      KnownRootStep(locals, globals, children, parentOf, prev.0, Listed(front), AtDepthZero(front), prev.1, r,
                    next.0, Listed(seeds), AtDepthZero(seeds), next.1);
    }
  }

  /** Started from exactly the parentless entities, the pass of the main
      module gives every entity with a chain to a root the composition
      along that chain and leaves every other world transform alone: the
      reference the systems module's pass meets. */
  lemma ChangedPassFromRoots(locals: map<Entity, Transform>, globals: map<Entity, GlobalTransform>,
                             children: map<Entity, seq<Entity>>, parentOf: map<Entity, Entity>,
                             rank: map<Entity, nat>, roots: seq<Entity>)
    requires HierarchyConsistent(children, parentOf) && Ranked(children, rank)
    requires NoDup(roots) && forall e :: e in roots <==> IsRoot(locals, globals, parentOf, e)
    ensures forall e :: e in roots ==> e in locals
    ensures FollowsChains(locals, globals, parentOf, ChangedPass(locals, globals, children, rank, roots))
  {
    SeedWalks(locals, globals, children, parentOf, roots);
    var s := Seed(locals, globals, children, roots);
    DrainFollowsChains(locals, globals, children, parentOf, rank, s.0, Listed(roots), AtDepthZero(roots), s.1);
  }

  /** When the changed entities are exactly the parentless ones, the two
      modules' passes compute the same world transforms. */
  method PassesAgreeOnRoots(locals: map<Entity, Transform>, globals: map<Entity, GlobalTransform>,
                            children: map<Entity, seq<Entity>>, parentOf: map<Entity, Entity>,
                            ghost rank: map<Entity, nat>, roots: seq<Entity>)
    returns (fromSystems: map<Entity, GlobalTransform>, fromMain: map<Entity, GlobalTransform>)
    requires HierarchyConsistent(children, parentOf) && Ranked(children, rank)
    requires NoDup(roots) && forall e :: e in roots <==> IsRoot(locals, globals, parentOf, e)
    ensures fromSystems == fromMain
  {
    ghost var done, depth;
    fromSystems, done, depth := Propagation.Propagate(locals, globals, children, parentOf, roots);
    fromMain := PropagateChanged(locals, globals, children, rank, roots);
    ChangedPassFromRoots(locals, globals, children, parentOf, rank, roots);
    forall e | e in fromSystems
      ensures fromSystems[e] == fromMain[e]
    {
      if e in done {
        assert ChainWorld(locals, globals, parentOf, e, depth[e]).Some?;
      } else {
        assert !HasChain(locals, globals, parentOf, e);
      }
    }
  }
}

/** Two inputs on which the pass of the main module leaves a child's world
    transform out of step with its parent's. */
module ChangedPropagationExamples {
  import opened Geometry
  import opened Components
  import opened Hierarchy
  import opened ChangedPropagation

  const Unit: Vector2 := Vector2(1.0, 1.0)

  function At(x: real): Transform {
    Transform(Vector2(x, 0.0), 0.0, Unit)
  }

  function WorldAt(x: real): GlobalTransform {
    GlobalTransform(Vector2(x, 0.0), 0.0, Unit)
  }

  /** A changed entity without children is written with from_root and
      nothing is pushed for it. */
  lemma SeedLeaf(locals: map<Entity, Transform>, globals: map<Entity, GlobalTransform>,
                 children: map<Entity, seq<Entity>>, rank: map<Entity, nat>, c: Entity)
    requires Ranked(children, rank)
    requires c in locals && c !in children
    ensures ChangedPass(locals, globals, children, rank, [c]) == globals[c := FromRoot(locals[c])]
  {
    assert [c][..0] == [];
    assert Seed(locals, globals, children, []) == (globals, []);
    assert Kids(children, c) == [];
    var e: seq<Entry> := [];
    assert e + Pushed(FromRoot(locals[c]), []) == [];
    var s := Seed(locals, globals, children, [c]);
    assert s == (globals[c := FromRoot(locals[c])], []);
    assert Drain(locals, children, rank, s.0, s.1) == s.0;
  }

  /** The two-entity world of `ChangedChildIgnoresParent` satisfies the
      relationship invariant and has a rank. */
  lemma PairConsistent(p: Entity, c: Entity)
    requires p != c
    ensures HierarchyConsistent(map[p := [c]], map[c := p])
    ensures Ranked(map[p := [c]], map[p := 1, c := 0])
  {
  }

  /** A parent p at x = 5 with a child c at local x = 1, and only the child's
      transform changed: the child is seeded with from_root and ends at
      x = 1, while from_local of its parent's world transform puts it at
      x = 6. */
  lemma ChangedChildIgnoresParent(p: Entity, c: Entity)
    requires p != c
    ensures var children, rank := map[p := [c]], map[p := 1, c := 0];
            var locals := map[p := At(5.0), c := At(1.0)];
            var globals := map[p := WorldAt(5.0), c := WorldAt(6.0)];
            && Ranked(children, rank)
            && var out := ChangedPass(locals, globals, children, rank, [c]);
               && p in out && c in out
               && out[p] == WorldAt(5.0)
               && out[c].position == Vector2(1.0, 0.0)
               && FromLocal(out[p], locals[c]).position == Vector2(6.0, 0.0)
  {
    var children, rank := map[p := [c]], map[p := 1, c := 0];
    var locals := map[p := At(5.0), c := At(1.0)];
    var globals := map[p := WorldAt(5.0), c := WorldAt(6.0)];
    PairConsistent(p, c);
    SeedLeaf(locals, globals, children, rank, c);
  }

  /** One pop of an entity with both transforms. */
  lemma DrainPop(locals: map<Entity, Transform>, children: map<Entity, seq<Entity>>, rank: map<Entity, nat>,
                 out: map<Entity, GlobalTransform>, rest: seq<Entry>, g: GlobalTransform, e: Entity)
    requires Ranked(children, rank)
    requires e in locals && e in out
    ensures Drain(locals, children, rank, out, rest + [(Some(g), e)]) ==
            Drain(locals, children, rank, out[e := FromLocal(g, locals[e])],
                  rest + Pushed(FromLocal(g, locals[e]), Kids(children, e)))
  {
    var s := rest + [(Some(g), e)];
    assert s[..|s| - 1] == rest;
  }

  /** The three-entity world of `SeedOrderLeavesStaleChild` satisfies the
      relationship invariant and has a rank. */
  lemma TripleConsistent(r: Entity, p: Entity, c: Entity)
    requires r != p && p != c && r != c
    ensures HierarchyConsistent(map[r := [p], p := [c]], map[p := r, c := p])
    ensures Ranked(map[r := [p], p := [c]], map[r := 2, p := 1, c := 0])
  {
  }

  /** Seeding the child p and then the root r leaves p's entry for c below
      r's entry for p. */
  lemma StaleSeed(r: Entity, p: Entity, c: Entity, locals: map<Entity, Transform>,
                  globals: map<Entity, GlobalTransform>, children: map<Entity, seq<Entity>>)
    requires r != p && p != c && r != c
    requires children == map[r := [p], p := [c]] && r in locals && p in locals
    ensures Seed(locals, globals, children, [p, r]) ==
            (globals[p := FromRoot(locals[p])][r := FromRoot(locals[r])],
             [(Some(FromRoot(locals[p])), c), (Some(FromRoot(locals[r])), p)])
  {
    assert Kids(children, p) == [c] && Kids(children, r) == [p];
    var gp, gr := FromRoot(locals[p]), FromRoot(locals[r]);
    assert [p] == [] + [p] && [p, r] == [p] + [r];
    SeedSnoc(locals, globals, children, [], p);
    SeedSnoc(locals, globals, children, [p], r);
    var e: seq<Entry> := [];
    assert e + Pushed(gp, [c]) + Pushed(gr, [p]) == [(Some(gp), c), (Some(gr), p)];
  }

  /** Popping r's entry for p writes p and pushes p's entry for c on top;
      that one is popped next, and p's stale seed-time entry for c last. */
  lemma StaleDrain(locals: map<Entity, Transform>, children: map<Entity, seq<Entity>>, rank: map<Entity, nat>,
                   out: map<Entity, GlobalTransform>, p: Entity, c: Entity, gp: GlobalTransform, gr: GlobalTransform)
    requires Ranked(children, rank)
    requires p != c && p in locals && c in locals && p in out && c in out
    requires Kids(children, p) == [c] && Kids(children, c) == []
    ensures var gp' := FromLocal(gr, locals[p]);
            Drain(locals, children, rank, out, [(Some(gp), c), (Some(gr), p)]) ==
            out[p := gp'][c := FromLocal(gp', locals[c])][c := FromLocal(gp, locals[c])]
  {
    var e: seq<Entry> := [];
    var bottom: seq<Entry> := [(Some(gp), c)];
    assert [(Some(gp), c), (Some(gr), p)] == bottom + [(Some(gr), p)];
    var gp' := FromLocal(gr, locals[p]);
    DrainPop(locals, children, rank, out, bottom, gr, p);
    var o2 := out[p := gp'];
    assert bottom + Pushed(gp', [c]) == bottom + [(Some(gp'), c)];
    var gc' := FromLocal(gp', locals[c]);
    DrainPop(locals, children, rank, o2, bottom, gp', c);
    var o3 := o2[c := gc'];
    assert bottom + Pushed(gc', []) == e + [(Some(gp), c)];
    DrainPop(locals, children, rank, o3, e, gp, c);
    assert e + Pushed(FromLocal(gp, locals[c]), []) == [];
  }

  /** Root r, its child p and grandchild c; the child and the root changed,
      and the query yields the child first. The entry the child pushed while
      it was seeded is popped last, so the grandchild ends composed with the
      child's from_root instead of the child's final world transform: they
      differ whenever the root is away from the origin. */
  lemma SeedOrderLeavesStaleChild(r: Entity, p: Entity, c: Entity, lr: Transform, lp: Transform, lc: Transform,
                                  g0: GlobalTransform)
    requires r != p && p != c && r != c
    ensures var children: map<Entity, seq<Entity>> := map[r := [p], p := [c]];
            var rank: map<Entity, nat> := map[r := 2, p := 1, c := 0];
            var locals: map<Entity, Transform> := map[r := lr, p := lp, c := lc];
            var globals: map<Entity, GlobalTransform> := map[r := g0, p := g0, c := g0];
            && Ranked(children, rank)
            && var out := ChangedPass(locals, globals, children, rank, [p, r]);
               && p in out && c in out
               && out[p] == FromLocal(FromRoot(lr), lp)
               && out[c] == FromLocal(FromRoot(lp), lc)
               && (lr.position != Zero ==> out[c] != FromLocal(out[p], lc))
  {
    var children: map<Entity, seq<Entity>> := map[r := [p], p := [c]];
    var rank: map<Entity, nat> := map[r := 2, p := 1, c := 0];
    var locals: map<Entity, Transform> := map[r := lr, p := lp, c := lc];
    var globals: map<Entity, GlobalTransform> := map[r := g0, p := g0, c := g0];
    TripleConsistent(r, p, c);
    StaleSeed(r, p, c, locals, globals, children);
    var gp, gr := FromRoot(lp), FromRoot(lr);
    StaleDrain(locals, children, rank, globals[p := gp][r := gr], p, c, gp, gr);
    var gp' := FromLocal(gr, lp);
    ghost var out := ChangedPass(locals, globals, children, rank, [p, r]);
    assert out[p] == gp' && out[c] == FromLocal(gp, lc);
    if lr.position != Zero {
      assert FromLocal(gp', lc).position.x - FromLocal(gp, lc).position.x == lr.position.x;
      assert FromLocal(gp', lc).position.y - FromLocal(gp, lc).position.y == lr.position.y;
      assert FromLocal(gp', lc) != FromLocal(gp, lc);
    }
  }
}
