/** The guard on chains of references: it stops every endless chain, and some finite ones, and changes no other outcome. */
module CoercionDepth {
  import opened Json
  import opened References
  import opened Coercion

  /** Nodes that refer only to each other. */
  ghost predicate RefCycle(c: Context, cycle: set<Target>) {
    forall t :: t in cycle ==> t.Target? && IsRef(t.node) && c.resolve(t.node["$ref"].s, t.doc) in cycle
  }

  /** From any node of a reference cycle, at any depth, coercion ends in the depth error. */
  lemma {:induction false} CycleExceedsDepth(c: Context, cycle: set<Target>, t: Target, v: Value, depth: nat)
    requires RefCycle(c, cycle) && t in cycle && depth <= c.limit
    ensures Coerce(c, v, t.node, t.doc, depth) == Fail({DepthExceeded})
    decreases c.limit - depth
  {
    if depth < c.limit {
      CycleExceedsDepth(c, cycle, c.resolve(t.node["$ref"].s, t.doc), v, depth + 1);
    }
  }

  /** Where n resolutions lead; Missing when one of them fails or there is nothing to resolve. */
  function Chain(c: Context, t: Target, n: nat): Target
    decreases n
  {
    if n == 0 then t
    else
      var prev := Chain(c, t, n - 1);
      if prev.Target? && IsRef(prev.node) then c.resolve(prev.node["$ref"].s, prev.doc) else Missing
  }

  /** A chain of references is followed as far as the guard allows, to the node the data is coerced against. */
  lemma {:induction false} ChainFollowed(c: Context, t: Target, n: nat, v: Value, depth: nat)
    requires t.Target? && depth + n <= c.limit && Chain(c, t, n).Target?
    ensures Coerce(c, v, t.node, t.doc, depth) == Coerce(c, v, Chain(c, t, n).node, Chain(c, t, n).doc, depth + n)
    decreases n
  {
    if n > 0 {
      var last := Chain(c, t, n - 1);
      ChainFollowed(c, t, n - 1, v, depth);
    }
  }

  lemma {:induction false} ChainPrefix(c: Context, t: Target, n: nat, m: nat)
    requires n <= m && Chain(c, t, m).Target?
    ensures Chain(c, t, n).Target? && (n < m ==> IsRef(Chain(c, t, n).node) && Chain(c, t, n + 1).Target?)
    decreases m - n
  {
    if n < m {
      ChainPrefix(c, t, n + 1, m);
    }
  }

  /** A chain longer than the guard allows ends in the depth error, whatever lies at its end. */
  lemma LongChainExceedsDepth(c: Context, t: Target, n: nat, v: Value, depth: nat)
    requires t.Target? && depth <= c.limit < depth + n && Chain(c, t, n).Target?
    ensures Coerce(c, v, t.node, t.doc, depth) == Fail({DepthExceeded})
  {
    ChainPrefix(c, t, c.limit - depth, n);
    ChainFollowed(c, t, c.limit - depth, v, depth);
    var last := Chain(c, t, c.limit - depth);
  }

  // ----- the guard changes an outcome only into the depth error

  /** The contexts differ in nothing but the limit, which is no lower in the second. */
  ghost predicate Laxer(c: Context, d: Context) {
    d == c.(limit := d.limit) && c.limit <= d.limit
  }

  /** The first outcome is the second, or the depth error stands in its way. */
  predicate SameUnlessDeep(less: Outcome, more: Outcome) {
    less == more || (less.Fail? && DepthExceeded in less.errors)
  }

  lemma {:induction false} PassThroughSame(c: Context, d: Context, v: Value)
    requires Laxer(c, d)
    ensures PassThrough(c, v) == PassThrough(d, v)
    decreases v
  {
    match v
    case Obj(m) =>
      forall k | k in m ensures PassThrough(c, m[k]) == PassThrough(d, m[k]) {
        PassThroughSame(c, d, m[k]);
      }
      assert (map k | k in m :: PassThrough(c, m[k])) == map k | k in m :: PassThrough(d, m[k]);
    case Arr(xs) =>
      forall i | 0 <= i < |xs| ensures PassThrough(c, xs[i]) == PassThrough(d, xs[i]) {
        PassThroughSame(c, d, xs[i]);
      }
      assert PassThroughAll(c, xs) == PassThroughAll(d, xs);
    case _ =>
  }

  lemma BranchSame(c: Context, d: Context, v: Value, sub: Node, doc: Node)
    requires Laxer(c, d)
    ensures BranchAccepts(c, v, sub, doc) == BranchAccepts(d, v, sub, doc)
  {
    PassThroughSame(c, d, v);
  }

  /**
   * With a lower limit a coercion has the outcome it has with a higher one, however high, or may fail
   * with the depth error: the guard changes nothing else.
   */
  lemma {:induction false} GuardTransparent(c: Context, d: Context, v: Value, node: Node, doc: Node, depth: nat)
    requires Laxer(c, d) && depth <= c.limit
    ensures SameUnlessDeep(Coerce(c, v, node, doc, depth), Coerce(d, v, node, doc, depth))
    decreases c.limit - depth, Obj(node), 3
  {
    var kw := Combiner(node);
    if IsRef(node) {
      var t := c.resolve(node["$ref"].s, doc);
      if depth < c.limit && t.Target? {
        GuardTransparent(c, d, v, t.node, t.doc, depth + 1);
      }
    } else if kw == "" {
      TypedTransparent(c, d, v, node, doc, depth);
    } else if node[kw].Arr? {
      if kw == "allOf" {
        AllOfTransparent(c, d, v, node, doc, depth, 0);
      } else {
        BranchTransparent(c, d, v, node, kw, doc, depth, 0);
      }
    } else {
      PassThroughSame(c, d, v);
    }
  }

  lemma {:induction false} TypedTransparent(c: Context, d: Context, v: Value, node: Node, doc: Node, depth: nat)
    requires Laxer(c, d) && depth <= c.limit
    ensures SameUnlessDeep(CoerceTyped(c, v, node, doc, depth), CoerceTyped(d, v, node, doc, depth))
    decreases c.limit - depth, Obj(node), 2
  {
    assert ActionFor(c, node, v) == ActionFor(d, node, v);
    if v.Obj? && ActionFor(c, node, v) == AsObject {
      ObjectTransparent(c, d, v.entries, node, doc, depth);
    } else if v.Arr? && ActionFor(c, node, v) == AsArray {
      ItemsTransparent(c, d, v.elems, node, doc, depth, 0);
    } else if ActionFor(c, node, v) == Untyped {
      PassThroughSame(c, d, v);
    }
  }

  ghost predicate EntriesSameUnlessDeep(less: map<string, Outcome>, more: map<string, Outcome>) {
    less.Keys == more.Keys && forall k :: k in less ==> SameUnlessDeep(less[k], more[k])
  }

  lemma DeepEntry(os: map<string, Outcome>, k: string)
    requires k in os && os[k].Fail? && DepthExceeded in os[k].errors
    ensures DepthExceeded in Errors(os)
  {
  }

  lemma GatherSame(present: map<string, Outcome>, absent: map<string, Outcome>,
                   present': map<string, Outcome>, absent': map<string, Outcome>)
    requires EntriesSameUnlessDeep(present, present') && EntriesSameUnlessDeep(absent, absent')
    ensures SameUnlessDeep(Gather(present, absent), Gather(present', absent'))
  {
    if k :| k in present && present[k] != present'[k] {
      DeepEntry(present, k);
    } else {
      assert present == present';
      if j :| j in absent && absent[j] != absent'[j] {
        DeepEntry(absent, j);
      } else {
        assert absent == absent';
      }
    }
  }

  lemma {:induction false} ObjectTransparent(c: Context, d: Context, m: map<string, Value>, node: Node, doc: Node, depth: nat)
    requires Laxer(c, d) && depth <= c.limit
    ensures SameUnlessDeep(CoerceObject(c, m, node, doc, depth), CoerceObject(d, m, node, doc, depth))
    decreases c.limit - depth, Obj(node), 1
  {
    var present, absent := Present(c, m, node, doc, depth), Absent(c, m, node, doc, depth);
    var present', absent' := Present(d, m, node, doc, depth), Absent(d, m, node, doc, depth);
    forall k | k in m ensures SameUnlessDeep(present[k], present'[k]) {
      PropertyIs(c, m, node, doc, depth, k);
      PropertyIs(d, m, node, doc, depth, k);
      if PropertySchema(node, k).Some? {
        GuardTransparent(c, d, m[k], PropertySchema(node, k).value, doc, depth);
      } else {
        PassThroughSame(c, d, m[k]);
      }
    }
    forall k | k in Defaulted(node, m) ensures SameUnlessDeep(absent[k], absent'[k]) {
      DefaultIs(c, m, node, doc, depth, k);
      DefaultIs(d, m, node, doc, depth, k);
      GuardTransparent(c, d, DefaultSchema(node, k)["default"], DefaultSchema(node, k), doc, depth);
    }
    GatherSame(present, absent, present', absent');
  }

  lemma {:induction false} ItemsTransparent(c: Context, d: Context, xs: seq<Value>, node: Node, doc: Node, depth: nat, i: nat)
    requires Laxer(c, d) && depth <= c.limit && i <= |xs|
    ensures SameUnlessDeep(CoerceItems(c, xs, node, doc, depth, i), CoerceItems(d, xs, node, doc, depth, i))
    decreases c.limit - depth, Obj(node), 1, |xs| - i
  {
    if i < |xs| {
      if ItemSchema(node, i).Some? {
        GuardTransparent(c, d, xs[i], ItemSchema(node, i).value, doc, depth);
      } else {
        PassThroughSame(c, d, xs[i]);
      }
      ItemsTransparent(c, d, xs, node, doc, depth, i + 1);
    }
  }

  lemma {:induction false} AllOfTransparent(c: Context, d: Context, v: Value, node: Node, doc: Node, depth: nat, i: nat)
    requires Laxer(c, d) && depth <= c.limit && "allOf" in node && node["allOf"].Arr? && i <= |node["allOf"].elems|
    ensures SameUnlessDeep(CoerceAllOf(c, v, node, doc, depth, i), CoerceAllOf(d, v, node, doc, depth, i))
    decreases c.limit - depth, Obj(node), 1, |node["allOf"].elems| - i
  {
    var subs := node["allOf"].elems;
    if i < |subs| {
      if subs[i].Obj? {
        GuardTransparent(c, d, v, subs[i].entries, doc, depth);
        var first := Coerce(c, v, subs[i].entries, doc, depth);
        if first.Ok? {
          AllOfTransparent(c, d, first.v, node, doc, depth, i + 1);
        }
      } else {
        AllOfTransparent(c, d, v, node, doc, depth, i + 1);
      }
    }
  }

  lemma {:induction false} BranchTransparent(c: Context, d: Context, v: Value, node: Node, kw: string, doc: Node,
                                             depth: nat, i: nat)
    requires Laxer(c, d) && depth <= c.limit && kw in node && node[kw].Arr? && i <= |node[kw].elems|
    ensures SameUnlessDeep(CoerceBranch(c, v, node, kw, doc, depth, i), CoerceBranch(d, v, node, kw, doc, depth, i))
    decreases c.limit - depth, Obj(node), 1, |node[kw].elems| - i
  {
    var subs := node[kw].elems;
    if i < |subs| {
      if subs[i].Obj? {
        BranchSame(c, d, v, subs[i].entries, doc);
      }
      if subs[i].Obj? && BranchAccepts(c, v, subs[i].entries, doc) == Yes {
        GuardTransparent(c, d, v, subs[i].entries, doc, depth);
      } else {
        BranchTransparent(c, d, v, node, kw, doc, depth, i + 1);
      }
    }
  }

  // ----- finite data that the guard rejects

  /** A schema for objects that hold another object of the same kind under the given key. */
  function Linked(key: string): Node {
    map["type" := Str("object"), "properties" := Obj(map[key := Obj(Link())])]
  }

  function Link(): Node {
    map["$ref" := Str("#")]
  }

  /** Objects nested n deep. */
  function Nested(key: string, n: nat): Value {
    if n == 0 then Obj(map[]) else Obj(map[key := Nested(key, n - 1)])
  }

  lemma LinkedIsObject(c: Context, key: string, m: map<string, Value>, depth: nat)
    requires depth <= c.limit
    ensures var node := Linked(key);
            Coerce(c, Obj(m), node, node, depth) == CoerceObject(c, m, node, node, depth)
  {
    var node := Linked(key);
    assert NodeTypes(node) == ["object"];
    assert ActionFor(c, node, Obj(m)) == AsObject;
    assert Combiner(node) == "" && !IsRef(node);
  }

  lemma LinkedLevel(c: Context, key: string, m: map<string, Value>, depth: nat)
    requires depth <= c.limit && m.Keys <= {key}
    ensures var node := Linked(key);
            Coerce(c, Obj(m), node, node, depth) ==
            if key !in m then Ok(Obj(map[]))
            else
              var inner := Coerce(c, m[key], Link(), node, depth);
              if inner.Ok? then Ok(Obj(map[key := inner.v])) else inner
  {
    var node := Linked(key);
    LinkedIsObject(c, key, m, depth);
    var present, absent := Present(c, m, node, node, depth), Absent(c, m, node, node, depth);
    assert absent == map[];
    if key in m {
      PropertyIs(c, m, node, node, depth, key);
      OneEntry(present, key);
    }
  }

  lemma OneEntry(present: map<string, Outcome>, key: string)
    requires present.Keys == {key}
    ensures Gather(present, map[]) ==
            if present[key].Ok? then Ok(Obj(map[key := present[key].v])) else present[key]
  {
    if present[key].Fail? {
      assert Errors(present) == present[key].errors;
    } else {
      assert Values(present) + Values(map[]) == map[key := present[key].v];
    }
  }

  /** Data nested n deep is coerced exactly when the guard still allows n references, and otherwise meets the depth error. */
  lemma {:induction false} NestedIff(c: Context, refs: map<string, Node>, key: string, n: nat, depth: nat)
    requires depth <= c.limit && c.resolve("#", Linked(key)) == ResolveRef(refs, "#", Linked(key))
    ensures Coerce(c, Nested(key, n), Linked(key), Linked(key), depth) ==
            if depth + n <= c.limit then Ok(Nested(key, n)) else Fail({DepthExceeded})
    decreases n
  {
    var node := Linked(key);
    LocalPointerRoundTrip(refs, [], node);
    LinkedLevel(c, key, Nested(key, n).entries, depth);
    if n > 0 {
      if depth < c.limit {
        NestedIff(c, refs, key, n - 1, depth + 1);
      }
    }
  }
}
