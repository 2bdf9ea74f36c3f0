/**
 * Which reference tables give, for every fit root, a document that means on its own what the
 * root and the table meant together, and that can be read from top to bottom.
 */
module AvroFidelity {
  import opened Json
  import opened AvroHydration
  import opened AvroNames
  import opened AvroScoping
  import opened AvroSpelling
  import opened AvroDocument

  /** What the table says full names stand for; each definition is a document of its own. */
  function Table(refs: Refs): (env: Env)
    ensures forall s :: s in env ==> env[s].ns == ""
  {
    map s | s in refs && refs[s].Some? :: At(refs[s].value, "")
  }

  function Malformed(refs: Refs): set<string> {
    set s | s in refs && refs[s].None?
  }

  /** To the given depth, the document made from root means what root means with the table. */
  ghost predicate KeepsMeaning(refs: Refs, root: Value, depth: nat) {
    Fit(refs, root) ==>
      var tree := Hydrate(refs, root, {}).tree;
      Unfold(Table(refs), At(root, ""), depth) == Unfold(InDocument(refs, tree), At(tree, ""), depth)
  }

  /** The references a document made from s defines, and those that no document could define. */
  function Settled(refs: Refs, s: string): set<string> {
    (if Hydrates(refs, s) then Hydrate(refs, Str(s), {}).defs.Keys else {}) + Malformed(refs)
  }

  /**
   * Strings and names agree in the walk of each reference: it opens references only in full, and
   * a name it leaves means no reference but one that it opens somewhere.
   */
  ghost predicate Agreeing(refs: Refs) {
    forall s :: ClearAlone(refs, s, Settled(refs, s))
  }

  // ----- original and hydrated nodes side by side

  /** b is what hydrating a gives at a point of a clear walk that in the end expands the names of env. */
  ghost predicate RelatedAt(refs: Refs, env: Env, a: Scoped, b: Scoped, inlined: set<string>) {
    var r := Hydrate(refs, a.node, inlined);
    && r.Done? && r.tree == b.node && inlined + r.defs.Keys <= env.Keys
    && Clear(refs, a.node, a.ns, inlined, env.Keys + Malformed(refs)) && Alike(a.node, a.ns, b.ns)
  }

  ghost predicate Related(refs: Refs, env: Env, a: Scoped, b: Scoped) {
    exists inlined :: RelatedAt(refs, env, a, b, inlined)
  }

  /** A name of env stands for its definition, hydrated somewhere on the walk. */
  ghost predicate Stands(refs: Refs, env: Env, s: string) {
    s in env ==> Declares(refs, s) && Related(refs, env, Table(refs)[s], env[s])
  }

  ghost predicate AllStand(refs: Refs, env: Env) {
    forall s {:trigger Stands(refs, env, s)} :: Stands(refs, env, s)
  }

  ghost predicate RelatedPair(refs: Refs, env: Env, nodes: seq<Value>, outs: seq<Value>, ns: string, i: int) {
    0 <= i < |nodes| == |outs| ==> Related(refs, env, At(nodes[i], ns), At(outs[i], ns))
  }

  ghost predicate PairwiseRelated(refs: Refs, env: Env, nodes: seq<Value>, outs: seq<Value>, ns: string) {
    && |nodes| == |outs|
    && forall i {:trigger RelatedPair(refs, env, nodes, outs, ns, i)} :: RelatedPair(refs, env, nodes, outs, ns, i)
  }

  lemma {:induction false} AllRelated(refs: Refs, env: Env, nodes: seq<Value>, ns: string, inlined: set<string>, whole: Value)
    requires forall c :: c in nodes ==> c < whole
    requires HydrateAll(refs, nodes, inlined, whole).AllDone?
    requires inlined + HydrateAll(refs, nodes, inlined, whole).defs.Keys <= env.Keys
    requires ClearAll(refs, nodes, ns, inlined, env.Keys + Malformed(refs), whole)
    ensures PairwiseRelated(refs, env, nodes, HydrateAll(refs, nodes, inlined, whole).trees, ns)
    decreases |nodes|
  {
    if nodes != [] {
      assert nodes[0] in nodes;
      assert forall c :: c in nodes[1..] ==> c in nodes;
      var first := Hydrate(refs, nodes[0], inlined);
      var outs := HydrateAll(refs, nodes, inlined, whole).trees;
      assert RelatedAt(refs, env, At(nodes[0], ns), At(outs[0], ns), inlined);
      AllRelated(refs, env, nodes[1..], ns, inlined + first.defs.Keys, whole);
      assert outs[1..] == HydrateAll(refs, nodes[1..], inlined + first.defs.Keys, whole).trees;
      forall i ensures RelatedPair(refs, env, nodes, outs, ns, i) {
        assert RelatedPair(refs, env, nodes[1..], outs[1..], ns, i - 1);
      }
    }
  }

  /** Related nodes that are not strings agree in all but their parts, which are related. */
  lemma PartsRelated(refs: Refs, env: Env, a: Scoped, b: Scoped)
    requires Related(refs, env, a, b) && !a.node.Str?
    ensures !b.node.Str? && NameAt(a) == NameAt(b) && Frame(a.node) == Frame(b.node)
    ensures Inner(a.node, a.ns) == Inner(b.node, b.ns)
    ensures PairwiseRelated(refs, env, Children(a.node), Children(b.node), Inner(a.node, a.ns))
  {
    var inlined :| RelatedAt(refs, env, a, b, inlined);
    var r := HydrateAll(refs, Children(a.node), inlined, a.node);
    NodeLens(a.node, r.trees);
    PlugDefined(a.node, r.trees, b.ns);
    AllRelated(refs, env, Children(a.node), Inner(a.node, a.ns), inlined, a.node);
    NamesOfDefined(a);
    NamesOfDefined(b);
  }

  lemma NamesOfDefined(at: Scoped)
    requires !at.node.Str?
    ensures NameAt(at) == if IsNamedType(at.node) then Some(Qualify(Inner(at.node, at.ns), at.node.StrAt("name"))) else None
    ensures NameAt(at).Some? <==> Defined(at.node, at.ns) != {}
    ensures NameAt(at).Some? ==> Defined(at.node, at.ns) == {NameAt(at).value}
  {
  }

  /** Seen one level deep, related nodes are the same. */
  lemma SameLevel(refs: Refs, env: Env, a: Scoped, b: Scoped) returns (a': Scoped, b': Scoped)
    requires AllStand(refs, env) && Related(refs, env, a, b)
    ensures Head(Table(refs), a) == Some(a') && Head(env, b) == Some(b')
    ensures NameAt(a') == NameAt(b') && Frame(a'.node) == Frame(b'.node) && Inner(a'.node, a'.ns) == Inner(b'.node, b'.ns)
    ensures PairwiseRelated(refs, env, Children(a'.node), Children(b'.node), Inner(a'.node, a'.ns))
  {
    var inlined :| RelatedAt(refs, env, a, b, inlined);
    a', b' := a, b;
    if a.node.Str? {
      var t, q := a.node.s, Resolve(a.ns, a.node.s);
      if t in refs && t !in inlined {
        assert Stands(refs, env, t);
        a' := At(refs[t].value, "");
        DefinitionStands(a'.node, t, b.ns);
        assert RelatedAt(refs, env, a', b, inlined + {t});
        PartsRelated(refs, env, a', b);
      } else {
        assert Stands(refs, env, q);
        if q in env {
          a', b' := Table(refs)[q], env[q];
          PartsRelated(refs, env, a', b');
        } else {
          assert Children(a.node) == [] == Children(b.node);
        }
      }
    } else {
      PartsRelated(refs, env, a, b);
    }
    HeadTo(Table(refs), a, a');
    HeadTo(env, b, b');
  }

  lemma {:induction false} RelatedUnfold(refs: Refs, env: Env, a: Scoped, b: Scoped, depth: nat)
    requires AllStand(refs, env) && Related(refs, env, a, b)
    ensures Unfold(Table(refs), a, depth) == Unfold(env, b, depth)
    decreases depth, 0
  {
    if depth > 0 {
      var a', b' := SameLevel(refs, env, a, b);
      RelatedUnfoldAll(refs, env, Children(a'.node), Children(b'.node), Inner(a'.node, a'.ns), depth - 1);
      assert Unfold(env, b, depth) == Opened(env, b', depth - 1);
    }
  }

  lemma {:induction false} RelatedUnfoldAll(refs: Refs, env: Env, nodes: seq<Value>, outs: seq<Value>, ns: string, depth: nat)
    requires AllStand(refs, env) && PairwiseRelated(refs, env, nodes, outs, ns)
    ensures UnfoldAll(Table(refs), nodes, ns, depth) == UnfoldAll(env, outs, ns, depth)
    decreases depth, 1, |nodes|
  {
    if nodes != [] {
      assert RelatedPair(refs, env, nodes, outs, ns, 0);
      RelatedUnfold(refs, env, At(nodes[0], ns), At(outs[0], ns), depth);
      forall i ensures RelatedPair(refs, env, nodes[1..], outs[1..], ns, i) {
        assert RelatedPair(refs, env, nodes, outs, ns, i + 1);
      }
      RelatedUnfoldAll(refs, env, nodes[1..], outs[1..], ns, depth);
    }
  }

  // ----- agreeing tables keep meaning

  lemma {:induction false} DefsRelated(refs: Refs, node: Value, ns: string, inlined: set<string>, env: Env, s: string)
    requires Hydrate(refs, node, inlined).Done? && s in Hydrate(refs, node, inlined).defs
    requires inlined + Hydrate(refs, node, inlined).defs.Keys <= env.Keys
    requires Clear(refs, node, ns, inlined, env.Keys + Malformed(refs))
    ensures refs[s].Some? && Related(refs, env, At(refs[s].value, ""), At(Hydrate(refs, node, inlined).defs[s], ""))
    decreases refs.Keys - inlined, node, 1
  {
    if node.Str? {
      var def := refs[node.s].value;
      if s == node.s {
        assert RelatedAt(refs, env, At(def, ""), At(Hydrate(refs, node, inlined).tree, ""), inlined + {s});
      } else {
        DefsRelated(refs, def, "", inlined + {node.s}, env, s);
      }
    } else {
      DefsRelatedIn(refs, Children(node), Inner(node, ns), inlined, node, env, s);
    }
  }

  lemma {:induction false} DefsRelatedIn(refs: Refs, nodes: seq<Value>, ns: string, inlined: set<string>, whole: Value,
                                         env: Env, s: string)
    requires forall c :: c in nodes ==> c < whole
    requires HydrateAll(refs, nodes, inlined, whole).AllDone? && s in HydrateAll(refs, nodes, inlined, whole).defs
    requires inlined + HydrateAll(refs, nodes, inlined, whole).defs.Keys <= env.Keys
    requires ClearAll(refs, nodes, ns, inlined, env.Keys + Malformed(refs), whole)
    ensures refs[s].Some? && Related(refs, env, At(refs[s].value, ""), At(HydrateAll(refs, nodes, inlined, whole).defs[s], ""))
    decreases refs.Keys - inlined, whole, 0, |nodes|
  {
    assert nodes[0] in nodes;
    assert forall c :: c in nodes[1..] ==> c in nodes;
    var first := Hydrate(refs, nodes[0], inlined);
    if s in HydrateAll(refs, nodes[1..], inlined + first.defs.Keys, whole).defs {
      DefsRelatedIn(refs, nodes[1..], ns, inlined + first.defs.Keys, whole, env, s);
    } else {
      DefsRelated(refs, nodes[0], ns, inlined, env, s);
    }
  }

  /** Everything a reference reaches is defined in a document that uses it. */
  lemma SettledInDocument(refs: Refs, root: Value, s: string)
    requires Hydrate(refs, root, {}).Done? && s in Hydrate(refs, root, {}).defs
    ensures Settled(refs, s) <= Hydrate(refs, root, {}).defs.Keys + Malformed(refs)
  {
    var names := Hydrate(refs, root, {}).defs.Keys;
    CompletedIsClosed(refs, root, {});
    assert {} + names == names;
    if Hydrates(refs, s) {
      assert Children(Str(s)) == [];
      StaysIn(refs, Str(s), {}, names);
    }
  }

  lemma AgreeingIsClear(refs: Refs, root: Value)
    requires Agreeing(refs) && Fit(refs, root)
    ensures Clear(refs, root, "", {}, Hydrate(refs, root, {}).defs.Keys + Malformed(refs))
  {
    var settled := Hydrate(refs, root, {}).defs.Keys + Malformed(refs);
    forall s | s in Hydrate(refs, root, {}).defs ensures ClearAlone(refs, s, settled) {
      assert ClearAlone(refs, s, Settled(refs, s));
      if Hydrates(refs, s) {
        SettledInDocument(refs, root, s);
        ClearLater(refs, Str(s), "", {}, Settled(refs, s), settled);
      }
    }
    FitIsClear(refs, root, settled);
  }

  lemma AgreeingKeepsMeaning(refs: Refs, root: Value, depth: nat)
    requires OwnNamesOnly(refs) && WellNamed(refs) && Agreeing(refs)
    ensures KeepsMeaning(refs, root, depth)
  {
    if Fit(refs, root) {
      var r := Hydrate(refs, root, {});
      var env := InDocument(refs, r.tree);
      AgreeingIsClear(refs, root);
      DocumentHoldsExpansions(refs, root, r.defs.Keys + Malformed(refs));
      forall s ensures Stands(refs, env, s) {
        if s in env {
          ExpandedHydrates(refs, root, s);
          DefsRelated(refs, root, "", {}, env, s);
          RelatedElsewhere(refs, env, s, r.defs[s], env[s].ns);
        }
      }
      assert RelatedAt(refs, env, At(root, ""), At(r.tree, ""), {});
      RelatedUnfold(refs, env, At(root, ""), At(r.tree, ""), depth);
    }
  }

  lemma RelatedElsewhere(refs: Refs, env: Env, s: string, out: Value, ns: string)
    requires Declares(refs, s) && InFull(Place(s, ns)) && Related(refs, env, At(refs[s].value, ""), At(out, ""))
    ensures Related(refs, env, At(refs[s].value, ""), At(out, ns))
  {
    var inlined :| RelatedAt(refs, env, At(refs[s].value, ""), At(out, ""), inlined);
    DefinitionStands(refs[s].value, s, ns);
    assert RelatedAt(refs, env, At(refs[s].value, ""), At(out, ns), inlined);
  }

  // ----- kept meaning needs agreeing tables

  ghost predicate Same(env: Env, a: Scoped, env': Env, b: Scoped) {
    forall depth: nat :: Unfold(env, a, depth) == Unfold(env', b, depth)
  }

  /** What a name of the table leads to is a definition, and stands on its own. */
  lemma {:induction false} FollowedInTable(refs: Refs, a: Scoped, fuel: nat)
    ensures Follow(Table(refs), a, fuel) == a || Follow(Table(refs), a, fuel).ns == ""
    decreases fuel
  {
    if fuel > 0 && IsName(Table(refs), a) {
      FollowedInTable(refs, Table(refs)[Resolve(a.ns, a.node.s)], fuel - 1);
    }
  }

  lemma TableHead(refs: Refs, a: Scoped) returns (h: Option<Scoped>)
    ensures h == Head(Table(refs), a)
    ensures h.Some? ==> !IsName(Table(refs), h.value) && (h.value == a || h.value.ns == "")
  {
    h := Head(Table(refs), a);
    if h.Some? {
      var fuel: nat :| Settles(Table(refs), a, fuel) && h == Some(Follow(Table(refs), a, fuel));
      FollowedInTable(refs, a, fuel);
    }
  }

  lemma FrameIsString(v: Value)
    ensures Frame(v).Str? <==> v.Str?
    ensures v.Str? ==> Frame(v) == v
    ensures Defined(Frame(v), "") == Defined(v, "")
  {
    PlugDefined(v, seq(|Children(v)|, i => Null), "");
  }

  /** A name that the table knows never means just that name. */
  lemma NameMeansMore(refs: Refs, env: Env, a: Scoped)
    requires IsName(Table(refs), a) && !IsName(env, a)
    ensures Unfold(Table(refs), a, 1) != Unfold(env, a, 1)
  {
    HeadTo(env, a, a);
    assert Unfold(env, a, 1) == Opened(env, a, 0);
    var h := TableHead(refs, a);
    if h.Some? {
      FrameIsString(h.value.node);
      FrameIsString(a.node);
    }
  }

  /** A definition opened under a name that is not full does not mean what the name means. */
  lemma OpenedInFullOnly(refs: Refs, env: Env, a: Scoped, b: Scoped)
    requires a.node.Str? && Declares(refs, a.node.s) && a.ns == b.ns
    requires Frame(b.node) == Frame(refs[a.node.s].value)
    requires Defined(b.node, b.ns) == Defined(refs[a.node.s].value, b.ns)
    requires Unfold(Table(refs), a, 1) == Unfold(env, b, 1)
    ensures Resolve(a.ns, a.node.s) == a.node.s
  {
    var s, def := a.node.s, refs[a.node.s].value;
    FrameIsString(def);
    FrameIsString(b.node);
    HeadTo(env, b, b);
    assert Unfold(env, b, 1) == Opened(env, b, 0);
    var h := TableHead(refs, a);
    FrameIsString(h.value.node);
    NamesOfDefined(h.value);
    NamesOfDefined(b);
    DefinitionMoves(def, s, b.ns);
  }

  /** What hydrating keeps of a definition. */
  lemma HydratedFrame(refs: Refs, def: Value, inlined: set<string>, ns: string)
    requires Hydrate(refs, def, inlined).Done? && !def.Str?
    ensures var tree := Hydrate(refs, def, inlined).tree;
            !tree.Str? && Frame(tree) == Frame(def) && Defined(tree, ns) == Defined(def, ns) && Inner(tree, ns) == Inner(def, ns)
  {
    var r := HydrateAll(refs, Children(def), inlined, def);
    NodeLens(def, r.trees);
    PlugDefined(def, r.trees, ns);
  }

  lemma NameSame(refs: Refs, env: Env, a: Scoped, b: Scoped)
    requires a.node.Str? && Declares(refs, a.node.s) && Resolve(a.ns, a.node.s) == a.node.s
    requires Same(Table(refs), a, env, b)
    ensures Same(Table(refs), At(refs[a.node.s].value, ""), env, b)
  {
    var def := At(refs[a.node.s].value, "");
    HeadTo(Table(refs), a, def);
    HeadTo(Table(refs), def, def);
    forall depth: nat ensures Unfold(Table(refs), def, depth) == Unfold(env, b, depth) {
      assert Unfold(Table(refs), def, depth) == Unfold(Table(refs), a, depth);
    }
  }

  ghost predicate SamePair(env: Env, nodes: seq<Value>, env': Env, outs: seq<Value>, ns: string, i: int) {
    0 <= i < |nodes| == |outs| ==> Same(env, At(nodes[i], ns), env', At(outs[i], ns))
  }

  lemma PartSame(env: Env, a: Scoped, env': Env, b: Scoped, i: nat)
    requires !a.node.Str? && !b.node.Str? && Same(env, a, env', b) && Inner(a.node, a.ns) == Inner(b.node, b.ns)
    requires i < |Children(a.node)| == |Children(b.node)|
    ensures SamePair(env, Children(a.node), env', Children(b.node), Inner(a.node, a.ns), i)
  {
    var nodes, outs, ns := Children(a.node), Children(b.node), Inner(a.node, a.ns);
    forall depth: nat ensures Unfold(env, At(nodes[i], ns), depth) == Unfold(env', At(outs[i], ns), depth) {
      HeadTo(env, a, a);
      HeadTo(env', b, b);
      assert Unfold(env, a, depth + 1) == Opened(env, a, depth);
      assert Unfold(env', b, depth + 1) == Opened(env', b, depth);
      UnfoldAllAt(env, nodes, ns, depth, i);
      UnfoldAllAt(env', outs, ns, depth, i);
    }
  }

  /** Where the meaning is kept, the walk was clear. */
  lemma {:induction false} SameIsClear(refs: Refs, env: Env, a: Scoped, b: Scoped, inlined: set<string>, elsewhere: set<string>)
    requires Hydrate(refs, a.node, inlined).Done? && Hydrate(refs, a.node, inlined).tree == b.node
    requires forall s :: s in Hydrate(refs, a.node, inlined).defs ==> Declares(refs, s)
    requires Alike(a.node, a.ns, b.ns) && Same(Table(refs), a, env, b) && env.Keys + Malformed(refs) <= elsewhere
    ensures Clear(refs, a.node, a.ns, inlined, elsewhere)
    decreases refs.Keys - inlined, a.node, 1
  {
    if a.node.Str? {
      var s := a.node.s;
      if s in refs && s !in inlined {
        assert s in Hydrate(refs, a.node, inlined).defs;
        var def := refs[s].value;
        HydratedFrame(refs, def, inlined + {s}, b.ns);
        OpenedInFullOnly(refs, env, a, b);
        DefinitionStands(def, s, b.ns);
        NameSame(refs, env, a, b);
        SameIsClear(refs, env, At(def, ""), b, inlined + {s}, elsewhere);
      } else if IsName(Table(refs), a) && !IsName(env, a) {
        NameMeansMore(refs, env, a);
        assert false;
      }
    } else {
      HydratedFrame(refs, a.node, inlined, b.ns);
      var r := HydrateAll(refs, Children(a.node), inlined, a.node);
      NodeLens(a.node, r.trees);
      forall i ensures SamePair(Table(refs), Children(a.node), env, r.trees, Inner(a.node, a.ns), i) {
        if 0 <= i < |r.trees| {
          PartSame(Table(refs), a, env, b, i);
        }
      }
      SameAllClear(refs, env, Children(a.node), Inner(a.node, a.ns), inlined, elsewhere, a.node);
    }
  }

  lemma {:induction false} SameAllClear(refs: Refs, env: Env, nodes: seq<Value>, ns: string, inlined: set<string>,
                                        elsewhere: set<string>, whole: Value)
    requires forall c :: c in nodes ==> c < whole
    requires HydrateAll(refs, nodes, inlined, whole).AllDone? && env.Keys + Malformed(refs) <= elsewhere
    requires forall s :: s in HydrateAll(refs, nodes, inlined, whole).defs ==> Declares(refs, s)
    requires forall i {:trigger SamePair(Table(refs), nodes, env, HydrateAll(refs, nodes, inlined, whole).trees, ns, i)} ::
               SamePair(Table(refs), nodes, env, HydrateAll(refs, nodes, inlined, whole).trees, ns, i)
    ensures ClearAll(refs, nodes, ns, inlined, elsewhere, whole)
    decreases refs.Keys - inlined, whole, 0, |nodes|
  {
    if nodes != [] {
      assert nodes[0] in nodes;
      assert forall c :: c in nodes[1..] ==> c in nodes;
      var outs := HydrateAll(refs, nodes, inlined, whole).trees;
      var more := inlined + Hydrate(refs, nodes[0], inlined).defs.Keys;
      assert SamePair(Table(refs), nodes, env, outs, ns, 0);
      SameIsClear(refs, env, At(nodes[0], ns), At(outs[0], ns), inlined, elsewhere);
      assert outs[1..] == HydrateAll(refs, nodes[1..], more, whole).trees;
      forall i ensures SamePair(Table(refs), nodes[1..], env, outs[1..], ns, i) {
        assert SamePair(Table(refs), nodes, env, outs, ns, i + 1);
      }
      SameAllClear(refs, env, nodes[1..], ns, more, elsewhere, whole);
    }
  }

  /** What a reference that does not declare its name leads to is not called by that name either. */
  lemma {:induction false} NotNamedSo(refs: Refs, t: string, s: string, fuel: nat)
    requires OwnNamesOnly(refs) && Hydrates(refs, t) && Hydrates(refs, s) && !Declares(refs, s)
    requires Settles(Table(refs), At(Str(t), ""), fuel)
    ensures NameAt(Follow(Table(refs), At(Str(t), ""), fuel)) != Some(s)
    decreases fuel
  {
    var def := At(refs[t].value, "");
    if IsName(Table(refs), def) {
      if def.node.s != t {
        assert def.node.s in Hydrate(refs, Str(t), {}).defs;
        ExpandedHydrates(refs, Str(t), def.node.s);
      }
      NotNamedSo(refs, def.node.s, s, fuel - 1);
    } else if !def.node.Str? {
      assert OwnNameOnly(refs, t);
      assert Defines(refs, t, s) == 0;
      NamesOfDefined(def);
    }
  }

  /** A list unfolds into its parts. */
  lemma UnfoldedPair(env: Env, a: Value, b: Value)
    ensures var shape := Unfold(env, At(Arr([a, b]), ""), 2);
            shape.Type? && |shape.parts| == 2 && shape.parts[1] == Unfold(env, At(b, ""), 1)
  {
    var root := At(Arr([a, b]), "");
    HeadTo(env, root, root);
    assert Unfold(env, root, 2) == Opened(env, root, 1);
    UnfoldAllAt(env, [a, b], "", 1, 1);
  }

  /** In a document, a name always unfolds to something of that name. */
  lemma NamedInDocument(refs: Refs, tree: Value, s: string)
    ensures var shape := Unfold(InDocument(refs, tree), At(Str(s), ""), 1);
            shape.Type? && shape.name == Some(s)
  {
    var env, at := InDocument(refs, tree), At(Str(s), "");
    var to := if s in env then env[s] else at;
    HeadTo(env, at, to);
    assert Unfold(env, at, 1) == Opened(env, to, 0);
    if s in env {
      NamesOfDefined(to);
    }
  }

  /** A reference that does not declare its own name changes meaning when it is used twice. */
  lemma UndeclaredChangesMeaning(refs: Refs, s: string)
    requires OwnNamesOnly(refs) && Hydrates(refs, s) && !Declares(refs, s)
    ensures !KeepsMeaning(refs, Arr([Str(s), Str(s)]), 2)
  {
    HydratedTwice(refs, s);
    PairIsFree(refs, s, s);
    var tree := Hydrate(refs, Arr([Str(s), Str(s)]), {}).tree;
    UnfoldedPair(InDocument(refs, tree), Hydrate(refs, Str(s), {}).tree, Str(s));
    UnfoldedPair(Table(refs), Str(s), Str(s));
    NamedInDocument(refs, tree, s);
    var at := At(Str(s), "");
    if Head(Table(refs), at).Some? {
      var fuel: nat :| Settles(Table(refs), at, fuel) && Head(Table(refs), at) == Some(Follow(Table(refs), at, fuel));
      NotNamedSo(refs, s, s, fuel);
    }
  }

  lemma NameIsFit(refs: Refs, s: string)
    requires Hydrates(refs, s)
    ensures Fit(refs, Str(s))
  {
    forall t | t in refs ensures Definitions(Str(s), "", t) == 0 {
      NameDefinesNothing(s, "", t);
    }
  }

  lemma KeptIsClear(refs: Refs, s: string)
    requires OwnNamesOnly(refs) && WellNamed(refs)
    requires forall depth: nat :: KeepsMeaning(refs, Str(s), depth)
    ensures ClearAlone(refs, s, Settled(refs, s))
  {
    if Hydrates(refs, s) {
      var r := Hydrate(refs, Str(s), {});
      var env := InDocument(refs, r.tree);
      var a, b := At(Str(s), ""), At(r.tree, "");
      NameIsFit(refs, s);
      OpensOwnOf(refs, Str(s));
      forall depth: nat ensures Unfold(Table(refs), a, depth) == Unfold(env, b, depth) {
        assert KeepsMeaning(refs, Str(s), depth);
      }
      SameIsClear(refs, env, a, b, {}, refs.Keys);
      DocumentHoldsExpansions(refs, Str(s), refs.Keys);
      SameIsClear(refs, env, a, b, {}, Settled(refs, s));
    }
  }

  /**
   * Hydration preserves meaning. Read on its own, every document made from a fit root unfolds, to
   * every depth, to the tree of types of the root read with the table, exactly when every reference
   * declares the name it is registered under and strings and names agree in the table.
   */
  lemma MeaningKeptIff(refs: Refs)
    requires OwnNamesOnly(refs)
    ensures (forall root, depth: nat :: KeepsMeaning(refs, root, depth)) <==> WellNamed(refs) && Agreeing(refs)
  {
    if WellNamed(refs) && Agreeing(refs) {
      forall root, depth: nat ensures KeepsMeaning(refs, root, depth) {
        AgreeingKeepsMeaning(refs, root, depth);
      }
    } else if !WellNamed(refs) {
      var s :| Hydrates(refs, s) && !Declares(refs, s);
      UndeclaredChangesMeaning(refs, s);
    } else {
      var s :| !ClearAlone(refs, s, Settled(refs, s));
      if forall depth: nat :: KeepsMeaning(refs, Str(s), depth) {
        KeptIsClear(refs, s);
        assert false;
      }
    }
  }
}
