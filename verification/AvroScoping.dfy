/**
 * The order of the walk: when each reference is expanded and when its name is left
 * standing, and what each expansion adds to the names a document defines.
 */
module AvroScoping {
  import opened Json
  import opened AvroHydration
  import opened AvroNames

  // ----- the trace of a walk

  /** A reference is opened, that is replaced by its definition, or its name is left as it is. */
  datatype Event = Open(s: string) | Left(s: string)

  function Trace(refs: Refs, node: Value, inlined: set<string>): seq<Event>
    requires Hydrate(refs, node, inlined).Done?
    decreases refs.Keys - inlined, node, 1
  {
    if node.Str? then
      if node.s !in refs then []
      else if node.s in inlined then [Left(node.s)]
      else [Open(node.s)] + Trace(refs, refs[node.s].value, inlined + {node.s})
    else TraceAll(refs, Children(node), inlined, node)
  }

  function TraceAll(refs: Refs, nodes: seq<Value>, inlined: set<string>, whole: Value): seq<Event>
    requires forall c :: c in nodes ==> c < whole
    requires HydrateAll(refs, nodes, inlined, whole).AllDone?
    decreases refs.Keys - inlined, whole, 0, |nodes|
  {
    if nodes == [] then []
    else
      assert nodes[0] in nodes;
      assert forall c :: c in nodes[1..] ==> c in nodes;
      Trace(refs, nodes[0], inlined) +
      TraceAll(refs, nodes[1..], inlined + Hydrate(refs, nodes[0], inlined).defs.Keys, whole)
  }

  function Opens(trace: seq<Event>): seq<string> {
    if trace == [] then []
    else if trace[0].Open? then [trace[0].s] + Opens(trace[1..])
    else Opens(trace[1..])
  }

  function Lefts(trace: seq<Event>): seq<string> {
    if trace == [] then []
    else if trace[0].Left? then [trace[0].s] + Lefts(trace[1..])
    else Lefts(trace[1..])
  }

  lemma {:induction false} OpensAppended(a: seq<Event>, b: seq<Event>)
    ensures Opens(a + b) == Opens(a) + Opens(b)
  {
    if a == [] {
      assert a + b == b;
    } else {
      OpensAppended(a[1..], b);
      assert (a + b)[1..] == a[1..] + b;
    }
  }

  lemma {:induction false} LeftsAppend(a: seq<Event>, b: seq<Event>)
    ensures Lefts(a + b) == Lefts(a) + Lefts(b)
  {
    if a == [] {
      assert a + b == b;
    } else {
      LeftsAppend(a[1..], b);
      assert (a + b)[1..] == a[1..] + b;
    }
  }

  ghost predicate Distinct(xs: seq<string>) {
    forall i, j :: 0 <= i < j < |xs| ==> xs[i] != xs[j]
  }

  lemma DistinctAppend(a: seq<string>, b: seq<string>)
    requires Distinct(a) && Distinct(b) && forall s :: s in a ==> s !in b
    ensures Distinct(a + b)
  {
    var ab := a + b;
    forall i, j | 0 <= i < j < |ab| ensures ab[i] != ab[j] {
      if i < |a| <= j {
        assert ab[i] in a && ab[j] in b;
      }
    }
  }

  /** The references opened by a walk are those it expands, each of them opened once. */
  lemma {:induction false} OpenedOnce(refs: Refs, node: Value, inlined: set<string>)
    requires Hydrate(refs, node, inlined).Done?
    ensures var opens := Opens(Trace(refs, node, inlined));
            Distinct(opens) && forall s :: s in opens <==> s in Hydrate(refs, node, inlined).defs
    decreases refs.Keys - inlined, node, 1
  {
    if node.Str? {
      if node.s !in inlined && node.s in refs {
        OpenedOnce(refs, refs[node.s].value, inlined + {node.s});
      }
    } else {
      OpenedOnceAmong(refs, Children(node), inlined, node);
    }
  }

  lemma {:induction false} OpenedOnceAmong(refs: Refs, nodes: seq<Value>, inlined: set<string>, whole: Value)
    requires forall c :: c in nodes ==> c < whole
    requires HydrateAll(refs, nodes, inlined, whole).AllDone?
    ensures var opens := Opens(TraceAll(refs, nodes, inlined, whole));
            Distinct(opens) && forall s :: s in opens <==> s in HydrateAll(refs, nodes, inlined, whole).defs
    decreases refs.Keys - inlined, whole, 0, |nodes|
  {
    if nodes != [] {
      assert nodes[0] in nodes;
      assert forall c :: c in nodes[1..] ==> c in nodes;
      var first := Hydrate(refs, nodes[0], inlined);
      OpenedOnce(refs, nodes[0], inlined);
      OpenedOnceAmong(refs, nodes[1..], inlined + first.defs.Keys, whole);
      var a, b := Trace(refs, nodes[0], inlined), TraceAll(refs, nodes[1..], inlined + first.defs.Keys, whole);
      OpensAppended(a, b);
      DistinctAppend(Opens(a), Opens(b));
    }
  }

  /** Whatever is left at position i of a trace was opened before it, or before the trace. */
  ghost predicate LeftAfterOpen(trace: seq<Event>, inlined: set<string>, i: nat)
    requires i < |trace|
  {
    trace[i].Left? ==> trace[i].s in inlined || Open(trace[i].s) in trace[..i]
  }

  ghost predicate LeftsAfterOpens(trace: seq<Event>, inlined: set<string>) {
    forall i :: 0 <= i < |trace| ==> LeftAfterOpen(trace, inlined, i)
  }

  lemma LeftsAppended(a: seq<Event>, b: seq<Event>, inlined: set<string>, more: set<string>)
    requires LeftsAfterOpens(a, inlined) && LeftsAfterOpens(b, more)
    requires forall s :: s in more ==> s in inlined || Open(s) in a
    ensures LeftsAfterOpens(a + b, inlined)
  {
    var ab := a + b;
    forall i | 0 <= i < |ab| ensures LeftAfterOpen(ab, inlined, i) {
      if i < |a| {
        assert LeftAfterOpen(a, inlined, i) && ab[..i] == a[..i];
      } else {
        assert LeftAfterOpen(b, more, i - |a|);
        assert ab[..i] == a + b[..i - |a|];
      }
    }
  }

  lemma {:induction false} OpensAreOpen(trace: seq<Event>, s: string)
    requires s in Opens(trace)
    ensures Open(s) in trace
  {
    if !(trace[0].Open? && trace[0].s == s) {
      OpensAreOpen(trace[1..], s);
    }
  }

  /** A reference name is left standing only after its definition was opened earlier in the walk. */
  lemma {:induction false} LeftOnlyAfterOpen(refs: Refs, node: Value, inlined: set<string>)
    requires Hydrate(refs, node, inlined).Done?
    ensures LeftsAfterOpens(Trace(refs, node, inlined), inlined)
    decreases refs.Keys - inlined, node, 1
  {
    if node.Str? {
      if node.s !in inlined && node.s in refs {
        LeftOnlyAfterOpen(refs, refs[node.s].value, inlined + {node.s});
        LeftsAppended([Open(node.s)], Trace(refs, refs[node.s].value, inlined + {node.s}), inlined, inlined + {node.s});
      }
    } else {
      LeftOnlyAfterOpenAmong(refs, Children(node), inlined, node);
    }
  }

  lemma {:induction false} LeftOnlyAfterOpenAmong(refs: Refs, nodes: seq<Value>, inlined: set<string>, whole: Value)
    requires forall c :: c in nodes ==> c < whole
    requires HydrateAll(refs, nodes, inlined, whole).AllDone?
    ensures LeftsAfterOpens(TraceAll(refs, nodes, inlined, whole), inlined)
    decreases refs.Keys - inlined, whole, 0, |nodes|
  {
    if nodes != [] {
      assert nodes[0] in nodes;
      assert forall c :: c in nodes[1..] ==> c in nodes;
      var first := Hydrate(refs, nodes[0], inlined);
      var a := Trace(refs, nodes[0], inlined);
      LeftOnlyAfterOpen(refs, nodes[0], inlined);
      LeftOnlyAfterOpenAmong(refs, nodes[1..], inlined + first.defs.Keys, whole);
      OpenedOnce(refs, nodes[0], inlined);
      forall s | s in first.defs ensures Open(s) in a {
        OpensAreOpen(a, s);
      }
      LeftsAppended(a, TraceAll(refs, nodes[1..], inlined + first.defs.Keys, whole), inlined, inlined + first.defs.Keys);
    }
  }

  /** The names from a given set at the type positions of a document, in order. */
  function NamesUsed(names: set<string>, node: Value): seq<string>
    decreases node, 1
  {
    if node.Str? then if node.s in names then [node.s] else []
    else NamesUsedIn(names, Children(node), node)
  }

  function NamesUsedIn(names: set<string>, nodes: seq<Value>, whole: Value): seq<string>
    requires forall c :: c in nodes ==> c < whole
    decreases whole, 0, |nodes|
  {
    if nodes == [] then []
    else
      assert nodes[0] in nodes;
      assert forall c :: c in nodes[1..] ==> c in nodes;
      NamesUsed(names, nodes[0]) + NamesUsedIn(names, nodes[1..], whole)
  }

  /** The names left by a walk are the reference names in the document it produces, in document order. */
  lemma {:induction false} LeftsAreNames(refs: Refs, node: Value, inlined: set<string>)
    requires Hydrate(refs, node, inlined).Done?
    ensures Lefts(Trace(refs, node, inlined)) == NamesUsed(refs.Keys, Hydrate(refs, node, inlined).tree)
    decreases refs.Keys - inlined, node, 1
  {
    if node.Str? {
      if node.s !in inlined && node.s in refs {
        LeftsAreNames(refs, refs[node.s].value, inlined + {node.s});
      }
    } else {
      var trees := HydrateAll(refs, Children(node), inlined, node).trees;
      NodeLens(node, trees);
      PlugDefined(node, trees, "");
      LeftsAreNamesAmong(refs, Children(node), inlined, node, Plug(node, trees));
    }
  }

  lemma {:induction false} LeftsAreNamesAmong(refs: Refs, nodes: seq<Value>, inlined: set<string>, whole: Value, out: Value)
    requires forall c :: c in nodes ==> c < whole
    requires HydrateAll(refs, nodes, inlined, whole).AllDone?
    requires forall c :: c in HydrateAll(refs, nodes, inlined, whole).trees ==> c < out
    ensures Lefts(TraceAll(refs, nodes, inlined, whole)) ==
            NamesUsedIn(refs.Keys, HydrateAll(refs, nodes, inlined, whole).trees, out)
    decreases refs.Keys - inlined, whole, 0, |nodes|
  {
    if nodes != [] {
      assert nodes[0] in nodes;
      assert forall c :: c in nodes[1..] ==> c in nodes;
      var first := Hydrate(refs, nodes[0], inlined);
      var r := HydrateAll(refs, nodes, inlined, whole);
      assert forall c :: c in r.trees[1..] ==> c in r.trees;
      assert r.trees[1..] == HydrateAll(refs, nodes[1..], inlined + first.defs.Keys, whole).trees;
      LeftsAreNames(refs, nodes[0], inlined);
      LeftsAreNamesAmong(refs, nodes[1..], inlined + first.defs.Keys, whole, out);
      LeftsAppend(Trace(refs, nodes[0], inlined), TraceAll(refs, nodes[1..], inlined + first.defs.Keys, whole));
    }
  }

  /**
   * For every document and every table: each reference is expanded at most once, and every
   * reference name in the output comes after the place where that reference was expanded.
   */
  lemma ExpandedOnceBeforeUse(refs: Refs, root: Value)
    requires Hydrate(refs, root, {}).Done?
    ensures var trace := Trace(refs, root, {});
            && Distinct(Opens(trace))
            && Lefts(trace) == NamesUsed(refs.Keys, Hydrate(refs, root, {}).tree)
            && forall i :: 0 <= i < |trace| && trace[i].Left? ==> Open(trace[i].s) in trace[..i]
  {
    OpenedOnce(refs, root, {});
    LeftsAreNames(refs, root, {});
    LeftOnlyAfterOpen(refs, root, {});
    var trace := Trace(refs, root, {});
    forall i | 0 <= i < |trace| && trace[i].Left? ensures Open(trace[i].s) in trace[..i] {
      assert LeftAfterOpen(trace, {}, i);
    }
  }

  // ----- where references are opened

  /** A reference and the namespace in which it is opened. */
  datatype Place = Place(s: string, ns: string)

  /** The places at which a walk opens references, in order. */
  function Places(refs: Refs, node: Value, ns: string, inlined: set<string>): seq<Place>
    requires Hydrate(refs, node, inlined).Done?
    decreases refs.Keys - inlined, node, 1
  {
    if node.Str? then
      if node.s !in refs || node.s in inlined then []
      else [Place(node.s, ns)] + Places(refs, refs[node.s].value, ns, inlined + {node.s})
    else PlacesAll(refs, Children(node), Inner(node, ns), inlined, node)
  }

  function PlacesAll(refs: Refs, nodes: seq<Value>, ns: string, inlined: set<string>, whole: Value): seq<Place>
    requires forall c :: c in nodes ==> c < whole
    requires HydrateAll(refs, nodes, inlined, whole).AllDone?
    decreases refs.Keys - inlined, whole, 0, |nodes|
  {
    if nodes == [] then []
    else
      assert nodes[0] in nodes;
      assert forall c :: c in nodes[1..] ==> c in nodes;
      Places(refs, nodes[0], ns, inlined) +
      PlacesAll(refs, nodes[1..], ns, inlined + Hydrate(refs, nodes[0], inlined).defs.Keys, whole)
  }

  function Names(places: seq<Place>): seq<string> {
    seq(|places|, i requires 0 <= i < |places| => places[i].s)
  }

  lemma NamesAppend(a: seq<Place>, b: seq<Place>)
    ensures Names(a + b) == Names(a) + Names(b)
  {
  }

  /** The places of a walk are those of its openings. */
  lemma {:induction false} PlacesOfOpens(refs: Refs, node: Value, ns: string, inlined: set<string>)
    requires Hydrate(refs, node, inlined).Done?
    ensures Names(Places(refs, node, ns, inlined)) == Opens(Trace(refs, node, inlined))
    decreases refs.Keys - inlined, node, 1
  {
    if node.Str? {
      if node.s !in inlined && node.s in refs {
        PlacesOfOpens(refs, refs[node.s].value, ns, inlined + {node.s});
      }
    } else {
      PlacesOfOpensAmong(refs, Children(node), Inner(node, ns), inlined, node);
    }
  }

  lemma {:induction false} PlacesOfOpensAmong(refs: Refs, nodes: seq<Value>, ns: string, inlined: set<string>, whole: Value)
    requires forall c :: c in nodes ==> c < whole
    requires HydrateAll(refs, nodes, inlined, whole).AllDone?
    ensures Names(PlacesAll(refs, nodes, ns, inlined, whole)) == Opens(TraceAll(refs, nodes, inlined, whole))
    decreases refs.Keys - inlined, whole, 0, |nodes|
  {
    if nodes != [] {
      assert nodes[0] in nodes;
      assert forall c :: c in nodes[1..] ==> c in nodes;
      var more := inlined + Hydrate(refs, nodes[0], inlined).defs.Keys;
      PlacesOfOpens(refs, nodes[0], ns, inlined);
      PlacesOfOpensAmong(refs, nodes[1..], ns, more, whole);
      OpensAppended(Trace(refs, nodes[0], inlined), TraceAll(refs, nodes[1..], more, whole));
      NamesAppend(Places(refs, nodes[0], ns, inlined), PlacesAll(refs, nodes[1..], ns, more, whole));
    }
  }

  /** A walk opens each reference it expands at one place, and no other reference. */
  lemma OnePlaceEach(refs: Refs, node: Value, ns: string, inlined: set<string>)
    requires Hydrate(refs, node, inlined).Done?
    ensures var names := Names(Places(refs, node, ns, inlined));
            Distinct(names) && forall s :: s in names <==> s in Hydrate(refs, node, inlined).defs
  {
    PlacesOfOpens(refs, node, ns, inlined);
    OpenedOnce(refs, node, inlined);
  }

  // ----- definitions are conserved

  /** How often the definition of a reference defines a full name when it stands at the place. */
  function DefinesAt(refs: Refs, p: Place, s: string): nat {
    if p.s in refs && refs[p.s].Some? then Definitions(refs[p.s].value, p.ns, s) else 0
  }

  function Contributed(refs: Refs, places: seq<Place>, s: string): nat {
    if places == [] then 0 else DefinesAt(refs, places[0], s) + Contributed(refs, places[1..], s)
  }

  lemma {:induction false} ContributedAppend(refs: Refs, a: seq<Place>, b: seq<Place>, s: string)
    ensures Contributed(refs, a + b, s) == Contributed(refs, a, s) + Contributed(refs, b, s)
  {
    if a == [] {
      assert a + b == b;
    } else {
      ContributedAppend(refs, a[1..], b, s);
      assert (a + b)[1..] == a[1..] + b;
    }
  }

  /**
   * Hydration adds the definitions in each reference it opens, under the full names they get
   * where it is opened, and neither loses nor repeats any.
   */
  lemma {:induction false} DefinitionsConserved(refs: Refs, node: Value, ns: string, inlined: set<string>, s: string)
    requires Hydrate(refs, node, inlined).Done?
    ensures Definitions(Hydrate(refs, node, inlined).tree, ns, s) ==
            Definitions(node, ns, s) + Contributed(refs, Places(refs, node, ns, inlined), s)
    decreases refs.Keys - inlined, node, 1
  {
    if node.Str? {
      if node.s !in inlined && node.s in refs {
        var def := refs[node.s].value;
        DefinitionsConserved(refs, def, ns, inlined + {node.s}, s);
        var rest := Places(refs, def, ns, inlined + {node.s});
        assert ([Place(node.s, ns)] + rest)[1..] == rest;
        assert Definitions(node, ns, s) == 0;
      }
    } else {
      var trees := HydrateAll(refs, Children(node), inlined, node).trees;
      NodeLens(node, trees);
      PlugDefined(node, trees, ns);
      DefinitionsConservedIn(refs, Children(node), Inner(node, ns), inlined, node, Plug(node, trees), s);
    }
  }

  lemma {:induction false} DefinitionsConservedIn(refs: Refs, nodes: seq<Value>, ns: string, inlined: set<string>,
                                                  whole: Value, out: Value, s: string)
    requires forall c :: c in nodes ==> c < whole
    requires HydrateAll(refs, nodes, inlined, whole).AllDone?
    requires forall c :: c in HydrateAll(refs, nodes, inlined, whole).trees ==> c < out
    ensures DefinitionsIn(HydrateAll(refs, nodes, inlined, whole).trees, ns, s, out) ==
            DefinitionsIn(nodes, ns, s, whole) + Contributed(refs, PlacesAll(refs, nodes, ns, inlined, whole), s)
    decreases refs.Keys - inlined, whole, 0, |nodes|
  {
    if nodes != [] {
      assert nodes[0] in nodes;
      assert forall c :: c in nodes[1..] ==> c in nodes;
      var first := Hydrate(refs, nodes[0], inlined);
      var more := inlined + first.defs.Keys;
      var r := HydrateAll(refs, nodes, inlined, whole);
      assert forall c :: c in r.trees[1..] ==> c in r.trees;
      assert r.trees[1..] == HydrateAll(refs, nodes[1..], more, whole).trees;
      DefinitionsStep(r.trees, ns, s, out);
      DefinitionsStep(nodes, ns, s, whole);
      DefinitionsConserved(refs, nodes[0], ns, inlined, s);
      DefinitionsConservedIn(refs, nodes[1..], ns, more, whole, out, s);
      ContributedAppend(refs, Places(refs, nodes[0], ns, inlined), PlacesAll(refs, nodes[1..], ns, more, whole), s);
    }
  }

  lemma DefinitionsStep(nodes: seq<Value>, ns: string, s: string, whole: Value)
    requires nodes != [] && forall c :: c in nodes ==> c < whole
    ensures forall c :: c in nodes[1..] ==> c < whole
    ensures DefinitionsIn(nodes, ns, s, whole) == Definitions(nodes[0], ns, s) + DefinitionsIn(nodes[1..], ns, s, whole)
  {
    assert forall c :: c in nodes[1..] ==> c in nodes;
  }

  // ----- the expanded definitions are part of the document

  /** The tree written for a reference stands in the output where the reference was opened. */
  lemma {:induction false} ExpansionsOccur(refs: Refs, node: Value, ns: string, inlined: set<string>, s: string)
      returns (at: string)
    requires Hydrate(refs, node, inlined).Done? && s in Hydrate(refs, node, inlined).defs
    ensures Place(s, at) in Places(refs, node, ns, inlined)
    ensures var r := Hydrate(refs, node, inlined);
            Occurs(At(r.tree, ns), At(r.defs[s], at))
    decreases refs.Keys - inlined, node, 1
  {
    if node.Str? {
      if s == node.s {
        at := ns;
      } else {
        at := ExpansionsOccur(refs, refs[node.s].value, ns, inlined + {node.s}, s);
      }
    } else {
      var r := HydrateAll(refs, Children(node), inlined, node);
      NodeLens(node, r.trees);
      PlugDefined(node, r.trees, ns);
      var i;
      i, at := ExpansionsOccurIn(refs, Children(node), Inner(node, ns), inlined, node, s);
      assert r.trees[i] in Children(Plug(node, r.trees));
    }
  }

  lemma {:induction false} ExpansionsOccurIn(refs: Refs, nodes: seq<Value>, ns: string, inlined: set<string>, whole: Value,
                                             s: string)
      returns (i: nat, at: string)
    requires forall c :: c in nodes ==> c < whole
    requires HydrateAll(refs, nodes, inlined, whole).AllDone? && s in HydrateAll(refs, nodes, inlined, whole).defs
    ensures Place(s, at) in PlacesAll(refs, nodes, ns, inlined, whole)
    ensures var r := HydrateAll(refs, nodes, inlined, whole);
            i < |r.trees| && Occurs(At(r.trees[i], ns), At(r.defs[s], at))
    decreases refs.Keys - inlined, whole, 0, |nodes|
  {
    assert nodes[0] in nodes;
    assert forall c :: c in nodes[1..] ==> c in nodes;
    var first := Hydrate(refs, nodes[0], inlined);
    if s in HydrateAll(refs, nodes[1..], inlined + first.defs.Keys, whole).defs {
      var j;
      j, at := ExpansionsOccurIn(refs, nodes[1..], ns, inlined + first.defs.Keys, whole, s);
      i := j + 1;
    } else {
      at := ExpansionsOccur(refs, nodes[0], ns, inlined, s);
      i := 0;
    }
  }
}
