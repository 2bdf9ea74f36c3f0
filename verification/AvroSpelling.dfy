/**
 * How references are spelled. The walk matches strings; Avro resolves names in the namespace
 * around them. A walk is clear when the two agree: it opens a reference only where the string is
 * its full name, and every reference meant by a name it leaves has a definition to be found.
 */
module AvroSpelling {
  import opened Json
  import opened AvroHydration
  import opened AvroNames
  import opened AvroScoping
  import AvroMeaning

  /** The reference can be hydrated: no malformed reference is in its reach. */
  predicate Hydrates(refs: Refs, s: string) {
    s in refs && Hydrate(refs, Str(s), {}).Done?
  }

  /** The reference's definition declares the name it is registered under. */
  predicate Declares(refs: Refs, s: string) {
    s in refs && refs[s].Some? && s in Defined(refs[s].value, "")
  }

  /** Every string of the document that is a reference's name, or means one, is its full name. */
  ghost predicate Spelled(refs: Refs, node: Value, ns: string)
    decreases node
  {
    if node.Str? then node.s in refs || Resolve(ns, node.s) in refs ==> Resolve(ns, node.s) == node.s
    else forall c :: c in Children(node) ==> Spelled(refs, c, Inner(node, ns))
  }

  /** The walk is clear, given the references defined elsewhere in the document. */
  predicate Clear(refs: Refs, node: Value, ns: string, inlined: set<string>, elsewhere: set<string>)
    requires Hydrate(refs, node, inlined).Done?
    decreases refs.Keys - inlined, node, 1
  {
    if node.Str? then
      if node.s in refs && node.s !in inlined then
        Resolve(ns, node.s) == node.s && Clear(refs, refs[node.s].value, "", inlined + {node.s}, elsewhere)
      else Resolve(ns, node.s) in refs ==> Resolve(ns, node.s) in inlined + elsewhere
    else ClearAll(refs, Children(node), Inner(node, ns), inlined, elsewhere, node)
  }

  predicate ClearAll(refs: Refs, nodes: seq<Value>, ns: string, inlined: set<string>, elsewhere: set<string>, whole: Value)
    requires forall c :: c in nodes ==> c < whole
    requires HydrateAll(refs, nodes, inlined, whole).AllDone?
    decreases refs.Keys - inlined, whole, 0, |nodes|
  {
    nodes == [] ||
    (assert nodes[0] in nodes;
     assert forall c :: c in nodes[1..] ==> c in nodes;
     Clear(refs, nodes[0], ns, inlined, elsewhere) &&
     ClearAll(refs, nodes[1..], ns, inlined + Hydrate(refs, nodes[0], inlined).defs.Keys, elsewhere, whole))
  }

  /** The walk of one reference alone is clear. */
  predicate ClearAlone(refs: Refs, s: string, elsewhere: set<string>) {
    Hydrates(refs, s) ==> Clear(refs, Str(s), "", {}, elsewhere)
  }

  lemma {:induction false} ClearLater(refs: Refs, node: Value, ns: string, inlined: set<string>, some: set<string>, more: set<string>)
    requires Hydrate(refs, node, inlined).Done? && Clear(refs, node, ns, inlined, some) && some <= more
    ensures Clear(refs, node, ns, inlined, more)
    decreases refs.Keys - inlined, node, 1
  {
    if node.Str? {
      if node.s in refs && node.s !in inlined {
        ClearLater(refs, refs[node.s].value, "", inlined + {node.s}, some, more);
      }
    } else {
      ClearAllLater(refs, Children(node), Inner(node, ns), inlined, some, more, node);
    }
  }

  lemma {:induction false} ClearAllLater(refs: Refs, nodes: seq<Value>, ns: string, inlined: set<string>,
                                         some: set<string>, more: set<string>, whole: Value)
    requires forall c :: c in nodes ==> c < whole
    requires HydrateAll(refs, nodes, inlined, whole).AllDone?
    requires ClearAll(refs, nodes, ns, inlined, some, whole) && some <= more
    ensures ClearAll(refs, nodes, ns, inlined, more, whole)
    decreases refs.Keys - inlined, whole, 0, |nodes|
  {
    if nodes != [] {
      assert nodes[0] in nodes;
      assert forall c :: c in nodes[1..] ==> c in nodes;
      ClearLater(refs, nodes[0], ns, inlined, some, more);
      ClearAllLater(refs, nodes[1..], ns, inlined + Hydrate(refs, nodes[0], inlined).defs.Keys, some, more, whole);
    }
  }

  // ----- a clear walk opens references in full

  predicate InFull(p: Place) {
    Resolve(p.ns, p.s) == p.s
  }

  /** Every reference opened by a clear walk, its definitions declaring their names, is opened in full. */
  lemma {:induction false} OpenedInFull(refs: Refs, node: Value, ns: string, at: string, inlined: set<string>,
                                        elsewhere: set<string>)
    requires Hydrate(refs, node, inlined).Done? && Clear(refs, node, ns, inlined, elsewhere) && Alike(node, ns, at)
    requires forall s :: s in Hydrate(refs, node, inlined).defs ==> Declares(refs, s)
    ensures forall p :: p in Places(refs, node, at, inlined) ==> InFull(p)
    decreases refs.Keys - inlined, node, 1
  {
    if node.Str? {
      if node.s in refs && node.s !in inlined {
        assert node.s in Hydrate(refs, node, inlined).defs;
        DefinitionStands(refs[node.s].value, node.s, at);
        OpenedInFull(refs, refs[node.s].value, "", at, inlined + {node.s}, elsewhere);
      }
    } else {
      OpenedInFullIn(refs, Children(node), Inner(node, ns), inlined, elsewhere, node);
    }
  }

  lemma {:induction false} OpenedInFullIn(refs: Refs, nodes: seq<Value>, ns: string, inlined: set<string>,
                                          elsewhere: set<string>, whole: Value)
    requires forall c :: c in nodes ==> c < whole
    requires HydrateAll(refs, nodes, inlined, whole).AllDone? && ClearAll(refs, nodes, ns, inlined, elsewhere, whole)
    requires forall s :: s in HydrateAll(refs, nodes, inlined, whole).defs ==> Declares(refs, s)
    ensures forall p :: p in PlacesAll(refs, nodes, ns, inlined, whole) ==> InFull(p)
    decreases refs.Keys - inlined, whole, 0, |nodes|
  {
    if nodes != [] {
      assert nodes[0] in nodes;
      assert forall c :: c in nodes[1..] ==> c in nodes;
      OpenedInFull(refs, nodes[0], ns, ns, inlined, elsewhere);
      OpenedInFullIn(refs, nodes[1..], ns, inlined + Hydrate(refs, nodes[0], inlined).defs.Keys, elsewhere, whole);
    }
  }

  // ----- sets of references that use only each other

  ghost predicate Closed(refs: Refs, names: set<string>) {
    forall s, u :: s in names && s in refs && refs[s].Some? && u in refs && AvroMeaning.Uses(refs[s].value, u) ==> u in names
  }

  ghost predicate UsesOnly(refs: Refs, node: Value, names: set<string>) {
    forall u :: u in refs && AvroMeaning.Uses(node, u) ==> u in names
  }

  /** A walk opens nothing outside a closed set it starts in. */
  lemma {:induction false} StaysIn(refs: Refs, node: Value, inlined: set<string>, names: set<string>)
    requires Closed(refs, names) && UsesOnly(refs, node, names) && Hydrate(refs, node, inlined).Done?
    ensures Hydrate(refs, node, inlined).defs.Keys <= names
    decreases refs.Keys - inlined, node, 1
  {
    if node.Str? {
      if node.s in refs && node.s !in inlined {
        assert AvroMeaning.Uses(node, node.s);
        StaysIn(refs, refs[node.s].value, inlined + {node.s}, names);
      }
    } else {
      StaysInAmong(refs, Children(node), inlined, node, names);
    }
  }

  lemma {:induction false} StaysInAmong(refs: Refs, nodes: seq<Value>, inlined: set<string>, whole: Value, names: set<string>)
    requires forall c :: c in nodes ==> c < whole && c in Children(whole)
    requires HydrateAll(refs, nodes, inlined, whole).AllDone?
    requires Closed(refs, names) && UsesOnly(refs, whole, names)
    ensures HydrateAll(refs, nodes, inlined, whole).defs.Keys <= names
    decreases refs.Keys - inlined, whole, 0, |nodes|
  {
    if nodes != [] {
      assert nodes[0] in nodes;
      assert forall c :: c in nodes[1..] ==> c in nodes;
      forall u | u in refs && AvroMeaning.Uses(nodes[0], u) ensures u in names {
        assert AvroMeaning.Uses(whole, u);
      }
      StaysIn(refs, nodes[0], inlined, names);
      StaysInAmong(refs, nodes[1..], inlined + Hydrate(refs, nodes[0], inlined).defs.Keys, whole, names);
    }
  }

  ghost predicate AllUseOnly(refs: Refs, defs: set<string>, names: set<string>) {
    forall s :: s in defs && s in refs && refs[s].Some? ==> UsesOnly(refs, refs[s].value, names)
  }

  /** Whatever the walked part or the opened definitions use is opened when the walk ends. */
  lemma {:induction false} Completes(refs: Refs, node: Value, inlined: set<string>)
    requires Hydrate(refs, node, inlined).Done?
    ensures var defs := Hydrate(refs, node, inlined).defs.Keys;
            UsesOnly(refs, node, inlined + defs) && AllUseOnly(refs, defs, inlined + defs)
    decreases refs.Keys - inlined, node, 1
  {
    var defs := Hydrate(refs, node, inlined).defs.Keys;
    if node.Str? {
      if node.s in refs && node.s !in inlined {
        Completes(refs, refs[node.s].value, inlined + {node.s});
        assert inlined + {node.s} + Hydrate(refs, refs[node.s].value, inlined + {node.s}).defs.Keys == inlined + defs;
      }
      assert Children(node) == [];
    } else {
      CompletesAll(refs, Children(node), inlined, node);
      forall u | u in refs && AvroMeaning.Uses(node, u) ensures u in inlined + defs {
        var i := AvroMeaning.UsingChild(node, u);
      }
    }
  }

  lemma {:induction false} CompletesAll(refs: Refs, nodes: seq<Value>, inlined: set<string>, whole: Value)
    requires forall c :: c in nodes ==> c < whole
    requires HydrateAll(refs, nodes, inlined, whole).AllDone?
    ensures var defs := HydrateAll(refs, nodes, inlined, whole).defs.Keys;
            && (forall i :: 0 <= i < |nodes| ==> UsesOnly(refs, nodes[i], inlined + defs))
            && AllUseOnly(refs, defs, inlined + defs)
    decreases refs.Keys - inlined, whole, 0, |nodes|
  {
    if nodes != [] {
      assert nodes[0] in nodes;
      assert forall c :: c in nodes[1..] ==> c in nodes;
      var first := Hydrate(refs, nodes[0], inlined).defs.Keys;
      Completes(refs, nodes[0], inlined);
      CompletesAll(refs, nodes[1..], inlined + first, whole);
      assert inlined + first + HydrateAll(refs, nodes[1..], inlined + first, whole).defs.Keys
          == inlined + HydrateAll(refs, nodes, inlined, whole).defs.Keys;
    }
  }

  lemma CompletedIsClosed(refs: Refs, node: Value, inlined: set<string>)
    requires Hydrate(refs, node, inlined).Done? && Closed(refs, inlined)
    ensures Closed(refs, inlined + Hydrate(refs, node, inlined).defs.Keys)
  {
    Completes(refs, node, inlined);
  }

  // ----- clear alone is clear everywhere

  /**
   * A walk that finds a closed set of references expanded already goes as it would have gone,
   * except that it leaves those references alone; it is clear if it would have been.
   */
  lemma {:induction false} ClearMore(refs: Refs, node: Value, ns: string, inlined: set<string>, more: set<string>,
                                     elsewhere: set<string>)
    requires Closed(refs, more)
    requires Hydrate(refs, node, inlined).Done? && Hydrate(refs, node, inlined + more).Done?
    requires Clear(refs, node, ns, inlined, elsewhere)
    ensures Clear(refs, node, ns, inlined + more, elsewhere)
    ensures inlined + Hydrate(refs, node, inlined).defs.Keys + more ==
            inlined + more + Hydrate(refs, node, inlined + more).defs.Keys
    decreases refs.Keys - inlined, node, 1
  {
    if node.Str? {
      if node.s in refs && node.s !in inlined {
        var def := refs[node.s].value;
        if node.s in more {
          StaysIn(refs, def, inlined + {node.s}, more);
        } else {
          assert inlined + {node.s} + more == inlined + more + {node.s};
          ClearMore(refs, def, "", inlined + {node.s}, more, elsewhere);
        }
      }
    } else {
      ClearAllMore(refs, Children(node), Inner(node, ns), inlined, more, elsewhere, node);
    }
  }

  lemma {:induction false} ClearAllMore(refs: Refs, nodes: seq<Value>, ns: string, inlined: set<string>, more: set<string>,
                                        elsewhere: set<string>, whole: Value)
    requires forall c :: c in nodes ==> c < whole
    requires Closed(refs, more)
    requires HydrateAll(refs, nodes, inlined, whole).AllDone? && HydrateAll(refs, nodes, inlined + more, whole).AllDone?
    requires ClearAll(refs, nodes, ns, inlined, elsewhere, whole)
    ensures ClearAll(refs, nodes, ns, inlined + more, elsewhere, whole)
    ensures inlined + HydrateAll(refs, nodes, inlined, whole).defs.Keys + more ==
            inlined + more + HydrateAll(refs, nodes, inlined + more, whole).defs.Keys
    decreases refs.Keys - inlined, whole, 0, |nodes|
  {
    if nodes != [] {
      assert nodes[0] in nodes;
      assert forall c :: c in nodes[1..] ==> c in nodes;
      ClearMore(refs, nodes[0], ns, inlined, more, elsewhere);
      var next := inlined + Hydrate(refs, nodes[0], inlined).defs.Keys;
      assert next + more == inlined + more + Hydrate(refs, nodes[0], inlined + more).defs.Keys;
      ClearAllMore(refs, nodes[1..], ns, next, more, elsewhere, whole);
      KeysStep(refs, nodes, inlined, whole);
      KeysStep(refs, nodes, inlined + more, whole);
    }
  }

  lemma KeysStep(refs: Refs, nodes: seq<Value>, inlined: set<string>, whole: Value)
    requires nodes != [] && forall c :: c in nodes ==> c < whole
    requires HydrateAll(refs, nodes, inlined, whole).AllDone?
    ensures forall c :: c in nodes[1..] ==> c < whole
    ensures var next := inlined + Hydrate(refs, nodes[0], inlined).defs.Keys;
            inlined + HydrateAll(refs, nodes, inlined, whole).defs.Keys ==
            next + HydrateAll(refs, nodes[1..], next, whole).defs.Keys
  {
    assert nodes[0] in nodes;
    assert forall c :: c in nodes[1..] ==> c in nodes;
  }

  /** The walk of a fully spelled document is clear if that of each reference it opens is, alone. */
  lemma {:induction false} ClearFromAlone(refs: Refs, node: Value, ns: string, inlined: set<string>, elsewhere: set<string>)
    requires Spelled(refs, node, ns) && Closed(refs, inlined) && Hydrate(refs, node, inlined).Done?
    requires forall s :: s in Hydrate(refs, node, inlined).defs ==> Hydrates(refs, s) && ClearAlone(refs, s, elsewhere)
    ensures Clear(refs, node, ns, inlined, elsewhere)
    decreases node, 1
  {
    if node.Str? {
      if node.s in refs && node.s !in inlined {
        assert node.s in Hydrate(refs, node, inlined).defs;
        assert Clear(refs, Str(node.s), "", {}, elsewhere);
        assert {} + {node.s} + inlined == inlined + {node.s};
        ClearMore(refs, refs[node.s].value, "", {} + {node.s}, inlined, elsewhere);
      }
    } else {
      ClearAllFromAlone(refs, Children(node), Inner(node, ns), inlined, elsewhere, node);
    }
  }

  lemma {:induction false} ClearAllFromAlone(refs: Refs, nodes: seq<Value>, ns: string, inlined: set<string>,
                                             elsewhere: set<string>, whole: Value)
    requires forall c :: c in nodes ==> c < whole && Spelled(refs, c, ns)
    requires Closed(refs, inlined) && HydrateAll(refs, nodes, inlined, whole).AllDone?
    requires forall s :: s in HydrateAll(refs, nodes, inlined, whole).defs ==> Hydrates(refs, s) && ClearAlone(refs, s, elsewhere)
    ensures ClearAll(refs, nodes, ns, inlined, elsewhere, whole)
    decreases whole, 0, |nodes|
  {
    if nodes != [] {
      assert nodes[0] in nodes;
      assert forall c :: c in nodes[1..] ==> c in nodes;
      CompletedIsClosed(refs, nodes[0], inlined);
      ClearFromAlone(refs, nodes[0], ns, inlined, elsewhere);
      ClearAllFromAlone(refs, nodes[1..], ns, inlined + Hydrate(refs, nodes[0], inlined).defs.Keys, elsewhere, whole);
    }
  }
}
