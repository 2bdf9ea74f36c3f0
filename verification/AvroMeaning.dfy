/**
 * Hydration keeps the meaning of a schema: the possibly infinite tree of types
 * that following every name in the document gives.
 */
module AvroMeaning {
  import opened Json
  import opened AvroHydration

  type Env = map<string, Value>

  // ----- what a document means

  predicate IsName(env: Env, node: Value) {
    node.Str? && node.s in env
  }

  /** Follows names at most fuel times. */
  ghost function Follow(env: Env, node: Value, fuel: nat): Value
    decreases fuel
  {
    if fuel > 0 && IsName(env, node) then Follow(env, env[node.s], fuel - 1) else node
  }

  ghost predicate Settles(env: Env, node: Value, fuel: nat) {
    !IsName(env, Follow(env, node, fuel))
  }

  /** The node a chain of names ends in, if it ends. */
  ghost function Head(env: Env, node: Value): Option<Value> {
    if exists fuel: nat :: Settles(env, node, fuel) then
      var fuel: nat :| Settles(env, node, fuel);
      Some(Follow(env, node, fuel))
    else None
  }

  /** A finite view of the tree of types. Endless marks names that only lead to names. */
  datatype Shape = Cut | Endless | Type(frame: Value, parts: seq<Shape>)

  /** The tree of types denoted by a node, cut at the given depth. */
  ghost function Unfold(env: Env, node: Value, depth: nat): Shape
    decreases depth, 0
  {
    if depth == 0 then Cut
    else
      var h := Head(env, node);
      if h.None? then Endless
      else Type(Frame(h.value), UnfoldAll(env, Children(h.value), depth - 1))
  }

  ghost function UnfoldAll(env: Env, nodes: seq<Value>, depth: nat): seq<Shape>
    decreases depth, 1, |nodes|
  {
    if nodes == [] then [] else [Unfold(env, nodes[0], depth)] + UnfoldAll(env, nodes[1..], depth)
  }

  /** The definitions a reference table gives. */
  function Definitions(refs: Refs): Env {
    map s | s in refs && refs[s].Some? :: refs[s].value
  }

  lemma {:induction false} FollowFurther(env: Env, node: Value, fuel: nat, more: nat)
    requires Settles(env, node, fuel) && fuel <= more
    ensures Follow(env, node, more) == Follow(env, node, fuel)
    decreases fuel
  {
    if fuel > 0 && IsName(env, node) {
      FollowFurther(env, env[node.s], fuel - 1, more - 1);
    }
  }

  lemma HeadIs(env: Env, node: Value, fuel: nat)
    requires Settles(env, node, fuel)
    ensures Head(env, node) == Some(Follow(env, node, fuel))
  {
    var other: nat :| Settles(env, node, other) && Head(env, node) == Some(Follow(env, node, other));
    FollowFurther(env, node, fuel, if fuel < other then other else fuel);
    FollowFurther(env, node, other, if fuel < other then other else fuel);
  }

  // ----- original and hydrated nodes side by side

  /** out is what hydrating node gives at a point of a walk that in the end expands the names of env. */
  ghost predicate RelatedAt(refs: Refs, env: Env, node: Value, out: Value, inlined: set<string>) {
    var r := Hydrate(refs, node, inlined);
    r.Done? && r.tree == out && inlined + r.defs.Keys <= env.Keys
  }

  ghost predicate Related(refs: Refs, env: Env, node: Value, out: Value) {
    exists inlined :: RelatedAt(refs, env, node, out, inlined)
  }

  /** A name of env stands for its definition, hydrated somewhere on the walk. */
  ghost predicate Stands(refs: Refs, env: Env, s: string) {
    s in env ==> s in Definitions(refs) && Related(refs, env, Definitions(refs)[s], env[s])
  }

  ghost predicate Closed(refs: Refs, env: Env) {
    forall s {:trigger Stands(refs, env, s)} :: Stands(refs, env, s)
  }

  /** The names a walk expands all stand for hydrated definitions of the same walk. */
  lemma {:induction false} WalkRelates(refs: Refs, node: Value, inlined: set<string>, env: Env)
    requires Hydrate(refs, node, inlined).Done?
    requires inlined + Hydrate(refs, node, inlined).defs.Keys <= env.Keys
    ensures var defs := Hydrate(refs, node, inlined).defs;
            forall s :: s in defs ==> s in Definitions(refs) && Related(refs, env, Definitions(refs)[s], defs[s])
    decreases refs.Keys - inlined, node, 1
  {
    if node.Str? {
      if node.s !in inlined && node.s in refs {
        WalkRelates(refs, refs[node.s].value, inlined + {node.s}, env);
        assert RelatedAt(refs, env, refs[node.s].value, Hydrate(refs, node, inlined).tree, inlined + {node.s});
      }
    } else {
      WalkAllRelates(refs, Children(node), inlined, node, env);
    }
  }

  lemma {:induction false} WalkAllRelates(refs: Refs, nodes: seq<Value>, inlined: set<string>, whole: Value, env: Env)
    requires forall c :: c in nodes ==> c < whole
    requires HydrateAll(refs, nodes, inlined, whole).AllDone?
    requires inlined + HydrateAll(refs, nodes, inlined, whole).defs.Keys <= env.Keys
    ensures var r := HydrateAll(refs, nodes, inlined, whole);
            && (forall s :: s in r.defs ==> s in Definitions(refs) && Related(refs, env, Definitions(refs)[s], r.defs[s]))
            && (forall i :: 0 <= i < |nodes| ==> Related(refs, env, nodes[i], r.trees[i]))
    decreases refs.Keys - inlined, whole, 0, |nodes|
  {
    if nodes != [] {
      assert nodes[0] in nodes;
      assert forall c :: c in nodes[1..] ==> c in nodes;
      var first := Hydrate(refs, nodes[0], inlined);
      WalkRelates(refs, nodes[0], inlined, env);
      assert RelatedAt(refs, env, nodes[0], first.tree, inlined);
      WalkAllRelates(refs, nodes[1..], inlined + first.defs.Keys, whole, env);
    }
  }

  /** Where the original chain of names ends, the hydrated one ends in the related node. */
  lemma {:induction false} HeadForward(refs: Refs, env: Env, node: Value, out: Value, inlined: set<string>, fuel: nat)
      returns (outFuel: nat)
    requires Closed(refs, env) && RelatedAt(refs, env, node, out, inlined)
    requires Settles(Definitions(refs), node, fuel)
    ensures Settles(env, out, outFuel)
    ensures Related(refs, env, Follow(Definitions(refs), node, fuel), Follow(env, out, outFuel))
    decreases fuel
  {
    if !IsName(Definitions(refs), node) {
      assert node.Str? ==> Stands(refs, env, node.s);
      outFuel := 0;
    } else if node.s in inlined {
      assert Stands(refs, env, node.s);
      var at :| RelatedAt(refs, env, Definitions(refs)[node.s], env[node.s], at);
      var f := HeadForward(refs, env, Definitions(refs)[node.s], env[node.s], at, fuel - 1);
      outFuel := f + 1;
    } else {
      outFuel := HeadForward(refs, env, Definitions(refs)[node.s], out, inlined + {node.s}, fuel - 1);
    }
  }

  /** Where the hydrated chain of names ends, the original one ends in the related node. */
  lemma {:induction false} HeadBackward(refs: Refs, env: Env, node: Value, out: Value, inlined: set<string>, outFuel: nat)
      returns (fuel: nat)
    requires Closed(refs, env) && RelatedAt(refs, env, node, out, inlined)
    requires Settles(env, out, outFuel)
    ensures Settles(Definitions(refs), node, fuel)
    ensures Related(refs, env, Follow(Definitions(refs), node, fuel), Follow(env, out, outFuel))
    decreases outFuel, refs.Keys - inlined
  {
    if !IsName(Definitions(refs), node) {
      assert node.Str? ==> Stands(refs, env, node.s);
      fuel := 0;
    } else if node.s in inlined {
      assert Stands(refs, env, node.s);
      var at :| RelatedAt(refs, env, Definitions(refs)[node.s], env[node.s], at);
      var f := HeadBackward(refs, env, Definitions(refs)[node.s], env[node.s], at, outFuel - 1);
      fuel := f + 1;
    } else {
      var f := HeadBackward(refs, env, Definitions(refs)[node.s], out, inlined + {node.s}, outFuel);
      fuel := f + 1;
    }
  }

  /** Related nodes have heads that agree: both missing, or both present and related. */
  lemma HeadsAgree(refs: Refs, env: Env, node: Value, out: Value)
    requires Closed(refs, env) && Related(refs, env, node, out)
    ensures Head(Definitions(refs), node).Some? <==> Head(env, out).Some?
    ensures Head(env, out).Some? ==>
              && !IsName(Definitions(refs), Head(Definitions(refs), node).value)
              && Related(refs, env, Head(Definitions(refs), node).value, Head(env, out).value)
  {
    var at :| RelatedAt(refs, env, node, out, at);
    if Head(Definitions(refs), node).Some? {
      var fuel: nat :| Settles(Definitions(refs), node, fuel);
      var outFuel := HeadForward(refs, env, node, out, at, fuel);
      HeadIs(Definitions(refs), node, fuel);
      HeadIs(env, out, outFuel);
    } else if Head(env, out).Some? {
      var outFuel: nat :| Settles(env, out, outFuel);
      var fuel := HeadBackward(refs, env, node, out, at, outFuel);
      assert false;
    }
  }

  ghost predicate RelatedPair(refs: Refs, env: Env, nodes: seq<Value>, outs: seq<Value>, i: int) {
    0 <= i < |nodes| == |outs| ==> Related(refs, env, nodes[i], outs[i])
  }

  ghost predicate PairwiseRelated(refs: Refs, env: Env, nodes: seq<Value>, outs: seq<Value>) {
    |nodes| == |outs| && forall i {:trigger RelatedPair(refs, env, nodes, outs, i)} :: RelatedPair(refs, env, nodes, outs, i)
  }

  /** Related nodes that are not names have the same frame and pairwise related children. */
  lemma PartsRelated(refs: Refs, env: Env, node: Value, out: Value)
    requires Closed(refs, env) && Related(refs, env, node, out) && !IsName(Definitions(refs), node)
    ensures Frame(node) == Frame(out) && PairwiseRelated(refs, env, Children(node), Children(out))
  {
    var at :| RelatedAt(refs, env, node, out, at);
    if !node.Str? {
      var r := HydrateAll(refs, Children(node), at, node);
      NodeLens(node, r.trees);
      WalkAllRelates(refs, Children(node), at, node, env);
    }
  }

  /** Seen one level deep, related nodes are the same. */
  lemma SameLevel(refs: Refs, env: Env, node: Value, out: Value)
    requires Closed(refs, env) && Related(refs, env, node, out)
    ensures var h, h' := Head(Definitions(refs), node), Head(env, out);
            && (h.Some? <==> h'.Some?)
            && (h.Some? ==> Frame(h.value) == Frame(h'.value) && PairwiseRelated(refs, env, Children(h.value), Children(h'.value)))
  {
    HeadsAgree(refs, env, node, out);
    if Head(env, out).Some? {
      PartsRelated(refs, env, Head(Definitions(refs), node).value, Head(env, out).value);
    }
  }

  lemma {:induction false} RelatedUnfold(refs: Refs, env: Env, node: Value, out: Value, depth: nat)
    requires Closed(refs, env) && Related(refs, env, node, out)
    ensures Unfold(Definitions(refs), node, depth) == Unfold(env, out, depth)
    decreases depth, 0
  {
    if depth > 0 {
      SameLevel(refs, env, node, out);
      var h, h' := Head(Definitions(refs), node), Head(env, out);
      if h'.Some? {
        RelatedUnfoldAll(refs, env, Children(h.value), Children(h'.value), depth - 1);
        assert Unfold(env, out, depth) == Type(Frame(h'.value), UnfoldAll(env, Children(h'.value), depth - 1));
      }
    }
  }

  lemma {:induction false} RelatedUnfoldAll(refs: Refs, env: Env, nodes: seq<Value>, outs: seq<Value>, depth: nat)
    requires Closed(refs, env) && PairwiseRelated(refs, env, nodes, outs)
    ensures UnfoldAll(Definitions(refs), nodes, depth) == UnfoldAll(env, outs, depth)
    decreases depth, 1, |nodes|
  {
    if nodes != [] {
      assert RelatedPair(refs, env, nodes, outs, 0);
      RelatedUnfold(refs, env, nodes[0], outs[0], depth);
      forall i ensures RelatedPair(refs, env, nodes[1..], outs[1..], i) {
        assert RelatedPair(refs, env, nodes, outs, i + 1);
      }
      RelatedUnfoldAll(refs, env, nodes[1..], outs[1..], depth);
    }
  }

  /**
   * For every document and every reference table, cyclic ones included, the hydrated document,
   * each name in it standing for the expansion the walk made of it, unfolds to the same tree of
   * types as the original document read with the reference table, to every depth.
   */
  lemma HydrationPreservesMeaning(refs: Refs, root: Value, depth: nat)
    requires Hydrate(refs, root, {}).Done?
    ensures var r := Hydrate(refs, root, {});
            Unfold(r.defs, r.tree, depth) == Unfold(Definitions(refs), root, depth)
  {
    var r := Hydrate(refs, root, {});
    WalkRelates(refs, root, {}, r.defs);
    assert RelatedAt(refs, r.defs, root, r.tree, {});
    RelatedUnfold(refs, r.defs, root, r.tree, depth);
  }

  // ----- when hydration fails

  /** A name stands at a type position of the node's tree. */
  ghost predicate Uses(node: Value, s: string)
    decreases node
  {
    node == Str(s) || exists c :: c in Children(node) && Uses(c, s)
  }

  /** A name is used by the node or, through at most hops definitions, by a name the node uses. */
  ghost predicate Reaches(refs: Refs, node: Value, s: string, hops: nat)
    decreases hops
  {
    Uses(node, s) ||
    (hops > 0 && exists t :: Uses(node, t) && t in Definitions(refs) && Reaches(refs, Definitions(refs)[t], s, hops - 1))
  }

  /** A reference that is not valid JSON is in reach of the node. */
  ghost predicate ReachesMalformed(refs: Refs, node: Value, s: string, hops: nat) {
    s in refs && refs[s].None? && Reaches(refs, node, s, hops)
  }

  lemma UsingChild(node: Value, s: string) returns (i: nat)
    requires Uses(node, s) && node != Str(s)
    ensures i < |Children(node)| && Uses(Children(node)[i], s) && Children(node)[i] < node
  {
    var c :| c in Children(node) && Uses(c, s);
    i :| 0 <= i < |Children(node)| && Children(node)[i] == c;
  }

  lemma {:induction false} UsedIsExpanded(refs: Refs, env: Env, node: Value, out: Value, s: string)
    requires Closed(refs, env) && Related(refs, env, node, out) && Uses(node, s) && s in refs
    ensures s in env
    decreases node
  {
    if node == Str(s) {
    } else {
      var i := UsingChild(node, s);
      PartsRelated(refs, env, node, out);
      assert RelatedPair(refs, env, Children(node), Children(out), i);
      UsedIsExpanded(refs, env, Children(node)[i], Children(out)[i], s);
    }
  }

  lemma {:induction false} ReachedIsExpanded(refs: Refs, env: Env, node: Value, out: Value, s: string, hops: nat)
    requires Closed(refs, env) && Related(refs, env, node, out) && Reaches(refs, node, s, hops) && s in refs
    ensures s in env
    decreases hops
  {
    if Uses(node, s) {
      UsedIsExpanded(refs, env, node, out, s);
    } else {
      var t :| Uses(node, t) && t in Definitions(refs) && Reaches(refs, Definitions(refs)[t], s, hops - 1);
      UsedIsExpanded(refs, env, node, out, t);
      assert Stands(refs, env, t);
      ReachedIsExpanded(refs, env, Definitions(refs)[t], env[t], s, hops - 1);
    }
  }

  lemma {:induction false} FailureWitness(refs: Refs, node: Value, inlined: set<string>) returns (s: string, hops: nat)
    requires Hydrate(refs, node, inlined).Failed?
    ensures ReachesMalformed(refs, node, s, hops)
    decreases refs.Keys - inlined, node, 1
  {
    if node.Str? {
      if refs[node.s].None? {
        s, hops := node.s, 0;
      } else {
        s, hops := FailureWitness(refs, refs[node.s].value, inlined + {node.s});
        hops := hops + 1;
        assert Uses(node, node.s);
      }
    } else {
      s, hops := FailureWitnessAmong(refs, Children(node), inlined, node);
    }
  }

  lemma {:induction false} FailureWitnessAmong(refs: Refs, nodes: seq<Value>, inlined: set<string>, whole: Value)
      returns (s: string, hops: nat)
    requires forall c :: c in nodes ==> c < whole
    requires forall c :: c in nodes ==> c in Children(whole)
    requires HydrateAll(refs, nodes, inlined, whole).OneFailed?
    ensures ReachesMalformed(refs, whole, s, hops)
    decreases refs.Keys - inlined, whole, 0, |nodes|
  {
    assert nodes[0] in nodes;
    assert forall c :: c in nodes[1..] ==> c in nodes;
    var first := Hydrate(refs, nodes[0], inlined);
    if first.Done? {
      s, hops := FailureWitnessAmong(refs, nodes[1..], inlined + first.defs.Keys, whole);
    } else {
      s, hops := FailureWitness(refs, nodes[0], inlined);
      if !Uses(nodes[0], s) {
        var t :| Uses(nodes[0], t) && t in Definitions(refs) && Reaches(refs, Definitions(refs)[t], s, hops - 1);
        assert Uses(whole, t);
      }
    }
  }

  /** Hydration fails exactly when some malformed reference can be reached from the document. */
  lemma HydrationFailsIff(refs: Refs, root: Value)
    ensures Hydrate(refs, root, {}).Failed? <==> exists s, hops: nat :: ReachesMalformed(refs, root, s, hops)
  {
    var r := Hydrate(refs, root, {});
    if r.Failed? {
      var s, hops := FailureWitness(refs, root, {});
      assert ReachesMalformed(refs, root, s, hops);
    } else {
      WalkRelates(refs, root, {}, r.defs);
      assert RelatedAt(refs, r.defs, root, r.tree, {});
      forall s, hops: nat | ReachesMalformed(refs, root, s, hops) ensures false {
        assert Stands(refs, r.defs, s);
        ReachedIsExpanded(refs, r.defs, root, r.tree, s, hops);
      }
    }
  }
}
