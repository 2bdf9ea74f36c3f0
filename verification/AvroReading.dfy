/** Reading a hydrated document from top to bottom. */
module AvroReading {
  import opened Json
  import opened AvroHydration
  import opened AvroNames
  import opened AvroScoping
  import opened AvroSpelling
  import opened AvroDocument
  import opened AvroFidelity

  /** The document made from root defines every reference before it uses it. */
  ghost predicate ReadsInOrder(refs: Refs, root: Value) {
    Fit(refs, root) ==> Read(refs.Keys, Hydrate(refs, root, {}).tree, "", {}).Some?
  }

  /** The document made from root means what it should and can be read from top to bottom. */
  ghost predicate Serves(refs: Refs, root: Value) {
    ReadsInOrder(refs, root) && forall depth: nat :: KeepsMeaning(refs, root, depth)
  }

  /** A walk of one reference leaves no name that means a reference it has not opened yet. */
  ghost predicate Ordered(refs: Refs) {
    forall s :: ClearAlone(refs, s, {})
  }

  /** Reading the parts a walk has written, one by one. */
  lemma ReadStep(refs: Refs, nodes: seq<Value>, ns: string, inlined: set<string>, whole: Value, known: set<string>, out: Value)
      returns (first: Hydration, rest: Hydrations)
    requires nodes != [] && forall c :: c in nodes ==> c < whole
    requires HydrateAll(refs, nodes, inlined, whole).AllDone?
    requires forall c :: c in HydrateAll(refs, nodes, inlined, whole).trees ==> c < out
    ensures nodes[0] < whole && forall c :: c in nodes[1..] ==> c < whole
    ensures first == Hydrate(refs, nodes[0], inlined) && first.Done?
    ensures rest == HydrateAll(refs, nodes[1..], inlined + first.defs.Keys, whole) && rest.AllDone?
    ensures HydrateAll(refs, nodes, inlined, whole).defs == first.defs + rest.defs
    ensures forall c :: c in rest.trees ==> c < out
    ensures ReadAll(refs.Keys, HydrateAll(refs, nodes, inlined, whole).trees, ns, known, out) ==
            var r := Read(refs.Keys, first.tree, ns, known);
            if r.None? then None else ReadAll(refs.Keys, rest.trees, ns, r.value, out)
  {
    assert nodes[0] in nodes;
    assert forall c :: c in nodes[1..] ==> c in nodes;
    first := Hydrate(refs, nodes[0], inlined);
    rest := HydrateAll(refs, nodes[1..], inlined + first.defs.Keys, whole);
    var trees := HydrateAll(refs, nodes, inlined, whole).trees;
    assert forall c :: c in trees[1..] ==> c in trees;
    assert trees[1..] == rest.trees;
  }

  // ----- ordered tables

  /** Whatever a clear walk writes after opening the names in inlined can be read knowing them. */
  lemma {:induction false} HydratedReads(refs: Refs, node: Value, ns: string, inlined: set<string>, known: set<string>)
    requires Hydrate(refs, node, inlined).Done? && Clear(refs, node, ns, inlined, {}) && inlined <= known
    requires forall s :: s in Hydrate(refs, node, inlined).defs ==> Declares(refs, s)
    ensures var r := Hydrate(refs, node, inlined);
            && Read(refs.Keys, r.tree, ns, known).Some?
            && inlined + r.defs.Keys <= Read(refs.Keys, r.tree, ns, known).value
    decreases refs.Keys - inlined, node, 1
  {
    if node.Str? {
      if node.s in refs && node.s !in inlined {
        assert node.s in Hydrate(refs, node, inlined).defs;
        DefinitionReads(refs, node.s, ns, inlined, known);
      }
    } else {
      var trees := HydrateAll(refs, Children(node), inlined, node).trees;
      NodeLens(node, trees);
      PlugDefined(node, trees, ns);
      HydratedAllReads(refs, Children(node), Inner(node, ns), inlined, node, known + Defined(node, ns), Plug(node, trees));
    }
  }

  /** A definition introduces its own name before its parts are read. */
  lemma {:induction false} DefinitionReads(refs: Refs, s: string, ns: string, inlined: set<string>, known: set<string>)
    requires inlined <= known && s !in inlined && Declares(refs, s) && Resolve(ns, s) == s
    requires Hydrate(refs, refs[s].value, inlined + {s}).Done? && Clear(refs, refs[s].value, "", inlined + {s}, {})
    requires forall t :: t in Hydrate(refs, refs[s].value, inlined + {s}).defs ==> Declares(refs, t)
    ensures var r := Hydrate(refs, refs[s].value, inlined + {s});
            && Read(refs.Keys, r.tree, ns, known).Some?
            && inlined + {s} + r.defs.Keys <= Read(refs.Keys, r.tree, ns, known).value
    decreases refs.Keys - (inlined + {s}), refs[s].value, 2
  {
    var def := refs[s].value;
    DefinitionStands(def, s, ns);
    var trees := HydrateAll(refs, Children(def), inlined + {s}, def).trees;
    NodeLens(def, trees);
    PlugDefined(def, trees, ns);
    HydratedAllReads(refs, Children(def), Inner(def, ns), inlined + {s}, def, known + {s}, Plug(def, trees));
  }

  lemma {:induction false} HydratedAllReads(refs: Refs, nodes: seq<Value>, ns: string, inlined: set<string>, whole: Value,
                                            known: set<string>, out: Value)
    requires forall c :: c in nodes ==> c < whole
    requires HydrateAll(refs, nodes, inlined, whole).AllDone? && inlined <= known
    requires ClearAll(refs, nodes, ns, inlined, {}, whole)
    requires forall s :: s in HydrateAll(refs, nodes, inlined, whole).defs ==> Declares(refs, s)
    requires forall c :: c in HydrateAll(refs, nodes, inlined, whole).trees ==> c < out
    ensures var r := HydrateAll(refs, nodes, inlined, whole);
            && ReadAll(refs.Keys, r.trees, ns, known, out).Some?
            && inlined + r.defs.Keys <= ReadAll(refs.Keys, r.trees, ns, known, out).value
    decreases refs.Keys - inlined, whole, 0, |nodes|
  {
    if nodes != [] {
      var first, rest := ReadStep(refs, nodes, ns, inlined, whole, known, out);
      HydratedReads(refs, nodes[0], ns, inlined, known);
      var known' := Read(refs.Keys, first.tree, ns, known).value;
      HydratedAllReads(refs, nodes[1..], ns, inlined + first.defs.Keys, whole, known', out);
    }
  }

  lemma OrderedReads(refs: Refs, root: Value)
    requires WellNamed(refs) && Ordered(refs)
    ensures ReadsInOrder(refs, root)
  {
    if Fit(refs, root) {
      FitIsClear(refs, root, {});
      forall s | s in Hydrate(refs, root, {}).defs ensures Declares(refs, s) {
        ExpandedHydrates(refs, root, s);
      }
      HydratedReads(refs, root, "", {}, {});
    }
  }

  lemma OrderedAgrees(refs: Refs)
    requires Ordered(refs)
    ensures Agreeing(refs)
  {
    forall s ensures ClearAlone(refs, s, Settled(refs, s)) {
      assert ClearAlone(refs, s, {});
      if Hydrates(refs, s) {
        ClearLater(refs, Str(s), "", {}, {}, Settled(refs, s));
      }
    }
  }

  // ----- documents read in order need ordered tables

  /** The reference names a reader knows after a part are those opened before or in it. */
  lemma KnownIsOpened(refs: Refs, node: Value, ns: string, inlined: set<string>, known: set<string>, elsewhere: set<string>)
    requires Hydrate(refs, node, inlined).Done? && Clear(refs, node, ns, inlined, elsewhere)
    requires OpensOwn(refs, Hydrate(refs, node, inlined).defs.Keys) && refs.Keys * known <= inlined
    requires forall s :: s in refs ==> Definitions(node, ns, s) == 0
    requires Read(refs.Keys, Hydrate(refs, node, inlined).tree, ns, known).Some?
    ensures refs.Keys * Read(refs.Keys, Hydrate(refs, node, inlined).tree, ns, known).value
            <= inlined + Hydrate(refs, node, inlined).defs.Keys
  {
    var r := Hydrate(refs, node, inlined);
    forall s | s in refs && s in Read(refs.Keys, r.tree, ns, known).value ensures s in inlined + r.defs.Keys {
      KnownIsDefined(refs.Keys, r.tree, ns, known, s);
      DefinedExactly(refs, node, ns, inlined, elsewhere, s);
    }
  }

  lemma {:induction false} ReadIsClear(refs: Refs, node: Value, ns: string, inlined: set<string>, known: set<string>,
                                       elsewhere: set<string>)
    requires Hydrate(refs, node, inlined).Done? && Clear(refs, node, ns, inlined, elsewhere)
    requires OpensOwn(refs, Hydrate(refs, node, inlined).defs.Keys) && refs.Keys * known <= inlined
    requires forall s :: s in refs ==> Definitions(node, ns, s) == 0
    requires Read(refs.Keys, Hydrate(refs, node, inlined).tree, ns, known).Some?
    ensures Clear(refs, node, ns, inlined, {})
    decreases refs.Keys - inlined, node, 1
  {
    if node.Str? {
      if node.s in refs && node.s !in inlined {
        assert node.s in Hydrate(refs, node, inlined).defs.Keys;
        ReadDefinitionIsClear(refs, node.s, ns, inlined, known, elsewhere);
      }
    } else {
      var trees := HydrateAll(refs, Children(node), inlined, node).trees;
      NodeLens(node, trees);
      PlugDefined(node, trees, ns);
      assert refs.Keys * (known + Defined(node, ns)) <= inlined;
      ReadAllIsClear(refs, Children(node), Inner(node, ns), inlined, node, known + Defined(node, ns), Plug(node, trees), elsewhere);
    }
  }

  lemma {:induction false} ReadDefinitionIsClear(refs: Refs, s: string, ns: string, inlined: set<string>, known: set<string>,
                                                 elsewhere: set<string>)
    requires s !in inlined && Declares(refs, s) && OwnNameOnly(refs, s) && Resolve(ns, s) == s
    requires Hydrate(refs, refs[s].value, inlined + {s}).Done?
    requires Clear(refs, refs[s].value, "", inlined + {s}, elsewhere)
    requires OpensOwn(refs, Hydrate(refs, refs[s].value, inlined + {s}).defs.Keys) && refs.Keys * known <= inlined
    requires Read(refs.Keys, Hydrate(refs, refs[s].value, inlined + {s}).tree, ns, known).Some?
    ensures Clear(refs, refs[s].value, "", inlined + {s}, {})
    decreases refs.Keys - (inlined + {s}), refs[s].value, 2
  {
    var def := refs[s].value;
    DefinitionStands(def, s, ns);
    var trees := HydrateAll(refs, Children(def), inlined + {s}, def).trees;
    NodeLens(def, trees);
    PlugDefined(def, trees, ns);
    forall t | t in refs ensures DefinitionsIn(Children(def), Inner(def, ""), t, def) == 0 {
      assert Defines(refs, s, t) == if t == s then 1 else 0;
    }
    ReadAllIsClear(refs, Children(def), Inner(def, ns), inlined + {s}, def, known + {s}, Plug(def, trees), elsewhere);
  }

  lemma {:induction false} ReadAllIsClear(refs: Refs, nodes: seq<Value>, ns: string, inlined: set<string>, whole: Value,
                                          known: set<string>, out: Value, elsewhere: set<string>)
    requires forall c :: c in nodes ==> c < whole
    requires HydrateAll(refs, nodes, inlined, whole).AllDone? && ClearAll(refs, nodes, ns, inlined, elsewhere, whole)
    requires OpensOwn(refs, HydrateAll(refs, nodes, inlined, whole).defs.Keys) && refs.Keys * known <= inlined
    requires forall s :: s in refs ==> DefinitionsIn(nodes, ns, s, whole) == 0
    requires forall c :: c in HydrateAll(refs, nodes, inlined, whole).trees ==> c < out
    requires ReadAll(refs.Keys, HydrateAll(refs, nodes, inlined, whole).trees, ns, known, out).Some?
    ensures ClearAll(refs, nodes, ns, inlined, {}, whole)
    decreases refs.Keys - inlined, whole, 0, |nodes|
  {
    if nodes != [] {
      var first, rest := ReadStep(refs, nodes, ns, inlined, whole, known, out);
      forall s | s in refs ensures Definitions(nodes[0], ns, s) == 0 == DefinitionsIn(nodes[1..], ns, s, whole) {
        DefinitionsStep(nodes, ns, s, whole);
      }
      var known' := Read(refs.Keys, first.tree, ns, known).value;
      KnownIsOpened(refs, nodes[0], ns, inlined, known, elsewhere);
      ReadIsClear(refs, nodes[0], ns, inlined, known, elsewhere);
      ReadAllIsClear(refs, nodes[1..], ns, inlined + first.defs.Keys, whole, known', out, elsewhere);
    }
  }

  lemma ReadAloneIsClear(refs: Refs, s: string)
    requires OwnNamesOnly(refs) && WellNamed(refs) && Agreeing(refs) && ReadsInOrder(refs, Str(s))
    ensures ClearAlone(refs, s, {})
  {
    if Hydrates(refs, s) {
      NameIsFit(refs, s);
      OpensOwnOf(refs, Str(s));
      assert ClearAlone(refs, s, Settled(refs, s));
      ReadIsClear(refs, Str(s), "", {}, {}, Settled(refs, s));
    }
  }

  /**
   * Every fit root gives a document that means what it should and defines each reference before
   * using it, exactly when every reference declares the name it is registered under and no walk of
   * a reference leaves a name that means a reference it has not opened yet.
   */
  lemma DefinedBeforeUseIff(refs: Refs)
    requires OwnNamesOnly(refs)
    ensures (forall root :: Serves(refs, root)) <==> WellNamed(refs) && Ordered(refs)
  {
    if WellNamed(refs) && Ordered(refs) {
      OrderedAgrees(refs);
      forall root ensures Serves(refs, root) {
        OrderedReads(refs, root);
        forall depth: nat ensures KeepsMeaning(refs, root, depth) {
          AgreeingKeepsMeaning(refs, root, depth);
        }
      }
    }
    if forall root :: Serves(refs, root) {
      forall root, depth: nat ensures KeepsMeaning(refs, root, depth) {
        assert Serves(refs, root);
      }
      MeaningKeptIff(refs);
      forall s ensures ClearAlone(refs, s, {}) {
        assert Serves(refs, Str(s));
        ReadAloneIsClear(refs, s);
      }
    }
  }
}
