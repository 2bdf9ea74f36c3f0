/**
 * The hydrated document on its own: what it defines, and under which tables it never defines
 * a reference twice.
 */
module AvroDocument {
  import opened Json
  import opened AvroHydration
  import opened AvroNames
  import opened AvroScoping
  import opened AvroSpelling
  import AvroMeaning

  /** The document defines no reference name itself. */
  ghost predicate Free(refs: Refs, root: Value) {
    forall s :: s in refs ==> Definitions(root, "", s) == 0
  }

  /** A root that spells references in full, defines none of them, and can be hydrated. */
  ghost predicate Fit(refs: Refs, root: Value) {
    Spelled(refs, root, "") && Free(refs, root) && Hydrate(refs, root, {}).Done?
  }

  /** Every reference is registered under the full name its definition declares. */
  ghost predicate WellNamed(refs: Refs) {
    forall s :: Hydrates(refs, s) ==> Declares(refs, s)
  }

  /** How often the definition of reference n defines a name. */
  function Defines(refs: Refs, n: string, s: string): nat {
    DefinesAt(refs, Place(n, ""), s)
  }

  /** The definition of s defines no reference name, except perhaps its own at the top. */
  ghost predicate OwnNameOnly(refs: Refs, s: string) {
    forall t :: t in refs ==> Defines(refs, s, t) == if t == s && Declares(refs, s) then 1 else 0
  }

  ghost predicate OwnNamesOnly(refs: Refs) {
    forall s :: Hydrates(refs, s) ==> OwnNameOnly(refs, s)
  }

  /** In every walk of a reference alone, references are opened in full. */
  ghost predicate OpensInFull(refs: Refs) {
    forall s :: ClearAlone(refs, s, refs.Keys)
  }

  // ----- what a walk expands

  /** Whatever a successful walk expands can be hydrated on its own. */
  lemma ExpandedHydrates(refs: Refs, root: Value, s: string)
    requires Hydrate(refs, root, {}).Done? && s in Hydrate(refs, root, {}).defs
    ensures Hydrates(refs, s)
  {
    var r := Hydrate(refs, root, {});
    AvroMeaning.WalkRelates(refs, root, {}, r.defs);
    if Hydrate(refs, Str(s), {}).Failed? {
      var t, hops := AvroMeaning.FailureWitness(refs, Str(s), {});
      assert AvroMeaning.RelatedAt(refs, r.defs, Str(s), Str(s), {s});
      assert AvroMeaning.Stands(refs, r.defs, t);
      AvroMeaning.ReachedIsExpanded(refs, r.defs, Str(s), Str(s), t, hops);
      assert false;
    }
  }

  /** The walk of a fit root is clear when those of the references are. */
  lemma FitIsClear(refs: Refs, root: Value, elsewhere: set<string>)
    requires Fit(refs, root)
    requires forall s :: s in Hydrate(refs, root, {}).defs ==> ClearAlone(refs, s, elsewhere)
    ensures Clear(refs, root, "", {}, elsewhere)
  {
    forall s | s in Hydrate(refs, root, {}).defs ensures Hydrates(refs, s) {
      ExpandedHydrates(refs, root, s);
    }
    ClearFromAlone(refs, root, "", {}, elsewhere);
  }

  lemma PlacedAlike(refs: Refs, p: Place, s: string)
    requires Declares(refs, p.s) && InFull(p)
    ensures DefinesAt(refs, p, s) == Defines(refs, p.s, s)
  {
    DefinitionStands(refs[p.s].value, p.s, p.ns);
  }

  /** How often the definitions of the given references define a name. */
  function Together(refs: Refs, names: seq<string>, s: string): nat {
    if names == [] then 0 else Defines(refs, names[0], s) + Together(refs, names[1..], s)
  }

  /** Places at which declared references are opened in full. */
  ghost predicate Sound(refs: Refs, places: seq<Place>) {
    forall p :: p in places ==> InFull(p) && Declares(refs, p.s)
  }

  lemma {:induction false} ContributedTogether(refs: Refs, places: seq<Place>, s: string)
    requires Sound(refs, places)
    ensures Contributed(refs, places, s) == Together(refs, Names(places), s)
  {
    if places != [] {
      assert places[0] in places && forall p :: p in places[1..] ==> p in places;
      assert Names(places)[1..] == Names(places[1..]);
      PlacedAlike(refs, places[0], s);
      ContributedTogether(refs, places[1..], s);
    }
  }

  /** A clear walk opens declared references at sound places. */
  lemma SoundPlaces(refs: Refs, node: Value, ns: string, inlined: set<string>, elsewhere: set<string>)
    requires Hydrate(refs, node, inlined).Done? && Clear(refs, node, ns, inlined, elsewhere)
    requires forall s :: s in Hydrate(refs, node, inlined).defs ==> Declares(refs, s)
    ensures Sound(refs, Places(refs, node, ns, inlined))
  {
    var places := Places(refs, node, ns, inlined);
    OpenedInFull(refs, node, ns, ns, inlined, elsewhere);
    OnePlaceEach(refs, node, ns, inlined);
    forall p | p in places ensures Declares(refs, p.s) {
      var i :| 0 <= i < |places| && places[i] == p;
      assert Names(places)[i] == p.s;
    }
  }

  lemma {:induction false} TogetherOwn(refs: Refs, names: seq<string>, s: string)
    requires s in refs && Distinct(names)
    requires forall n :: n in names ==> Declares(refs, n) && OwnNameOnly(refs, n)
    ensures Together(refs, names, s) == if s in names then 1 else 0
  {
    if names != [] {
      assert names[0] in names && forall n :: n in names[1..] ==> n in names;
      TogetherOwn(refs, names[1..], s);
      assert names == [names[0]] + names[1..];
    }
  }

  /** What a walk opens is well behaved: declared, defining its own name only. */
  ghost predicate OpensOwn(refs: Refs, defs: set<string>) {
    forall s :: s in defs ==> Declares(refs, s) && OwnNameOnly(refs, s)
  }

  /** A clear walk adds one definition of each reference it opens and of no other. */
  lemma DefinedExactly(refs: Refs, node: Value, ns: string, inlined: set<string>, elsewhere: set<string>, s: string)
    requires Hydrate(refs, node, inlined).Done? && Clear(refs, node, ns, inlined, elsewhere)
    requires OpensOwn(refs, Hydrate(refs, node, inlined).defs.Keys) && s in refs
    ensures var r := Hydrate(refs, node, inlined);
            Definitions(r.tree, ns, s) == Definitions(node, ns, s) + if s in r.defs then 1 else 0
  {
    var places := Places(refs, node, ns, inlined);
    SoundPlaces(refs, node, ns, inlined, elsewhere);
    OnePlaceEach(refs, node, ns, inlined);
    DefinitionsConserved(refs, node, ns, inlined, s);
    ContributedTogether(refs, places, s);
    TogetherOwn(refs, Names(places), s);
  }

  lemma OpensOwnOf(refs: Refs, root: Value)
    requires OwnNamesOnly(refs) && WellNamed(refs) && Hydrate(refs, root, {}).Done?
    ensures OpensOwn(refs, Hydrate(refs, root, {}).defs.Keys)
  {
    forall s | s in Hydrate(refs, root, {}).defs ensures Declares(refs, s) && OwnNameOnly(refs, s) {
      ExpandedHydrates(refs, root, s);
    }
  }

  // ----- what a reader finds

  /** What the reference names stand for to a reader who has only the document. */
  function InDocument(refs: Refs, tree: Value): (env: Env)
    ensures forall s :: s in env ==> s in refs && Defined(env[s].node, env[s].ns) == {s}
  {
    map s | s in refs && Find(At(tree, ""), s).Some? :: Find(At(tree, ""), s).value
  }

  /** The expansion of a reference that declares itself is a named type of that name. */
  lemma {:induction false} ExpansionDeclares(refs: Refs, node: Value, inlined: set<string>, s: string, ns: string)
    requires Hydrate(refs, node, inlined).Done? && s in Hydrate(refs, node, inlined).defs && Declares(refs, s)
    ensures Defined(Hydrate(refs, node, inlined).defs[s], ns) == Defined(refs[s].value, ns)
    decreases refs.Keys - inlined, node, 1
  {
    if node.Str? {
      var def := refs[node.s].value;
      if s == node.s {
        PlugDefined(def, HydrateAll(refs, Children(def), inlined + {s}, def).trees, ns);
      } else {
        ExpansionDeclares(refs, def, inlined + {node.s}, s, ns);
      }
    } else {
      ExpansionDeclaresIn(refs, Children(node), inlined, node, s, ns);
    }
  }

  lemma {:induction false} ExpansionDeclaresIn(refs: Refs, nodes: seq<Value>, inlined: set<string>, whole: Value, s: string,
                                               ns: string)
    requires forall c :: c in nodes ==> c < whole
    requires HydrateAll(refs, nodes, inlined, whole).AllDone? && Declares(refs, s)
    requires s in HydrateAll(refs, nodes, inlined, whole).defs
    ensures Defined(HydrateAll(refs, nodes, inlined, whole).defs[s], ns) == Defined(refs[s].value, ns)
    decreases refs.Keys - inlined, whole, 0, |nodes|
  {
    assert nodes[0] in nodes;
    assert forall c :: c in nodes[1..] ==> c in nodes;
    var first := Hydrate(refs, nodes[0], inlined);
    if s in HydrateAll(refs, nodes[1..], inlined + first.defs.Keys, whole).defs {
      ExpansionDeclaresIn(refs, nodes[1..], inlined + first.defs.Keys, whole, s, ns);
    } else {
      ExpansionDeclares(refs, nodes[0], inlined, s, ns);
    }
  }

  /**
   * In a well-named table of own names, when references are opened in full, a reader finds under
   * each reference name what the walk put there, where that name is full, and finds no other.
   */
  lemma DocumentHoldsExpansions(refs: Refs, root: Value, elsewhere: set<string>)
    requires OwnNamesOnly(refs) && WellNamed(refs) && Fit(refs, root) && Clear(refs, root, "", {}, elsewhere)
    ensures var r := Hydrate(refs, root, {});
            var env := InDocument(refs, r.tree);
            env.Keys == r.defs.Keys && forall s :: s in r.defs ==> env[s].node == r.defs[s] && InFull(Place(s, env[s].ns))
  {
    var r := Hydrate(refs, root, {});
    var env := InDocument(refs, r.tree);
    OpensOwnOf(refs, root);
    OpenedInFull(refs, root, "", "", {}, elsewhere);
    forall s | s in refs
      ensures s in env <==> s in r.defs
      ensures s in r.defs ==> env[s].node == r.defs[s] && InFull(Place(s, env[s].ns))
    {
      DefinedExactly(refs, root, "", {}, elsewhere, s);
      FoundIffDefined(At(r.tree, ""), s);
      if s in r.defs {
        var at := ExpansionsOccur(refs, root, "", {}, s);
        ExpansionDeclares(refs, root, {}, s, at);
        DefinitionStands(refs[s].value, s, at);
        FoundIsThePart(At(r.tree, ""), At(r.defs[s], at), s);
      }
    }
  }

  // ----- documents of two names

  lemma NameDefinesNothing(t: string, ns: string, s: string)
    ensures Definitions(Str(t), ns, s) == 0
  {
    assert Children(Str(t)) == [];
  }

  lemma PairIsFree(refs: Refs, a: string, b: string)
    ensures Free(refs, Arr([Str(a), Str(b)])) && Spelled(refs, Arr([Str(a), Str(b)]), "")
  {
    var root, rest := Arr([Str(a), Str(b)]), [Str(b)];
    assert Children(root)[0] == Str(a) && Children(root)[1..] == rest && rest[1..] == [];
    assert forall c :: c in rest ==> c in Children(root);
    forall s | s in refs ensures Definitions(root, "", s) == 0 {
      NameDefinesNothing(a, "", s);
      NameDefinesNothing(b, "", s);
      assert DefinitionsIn(rest, "", s, root) == 0;
    }
  }

  lemma HydratedTwice(refs: Refs, s: string)
    requires Hydrates(refs, s)
    ensures var r := Hydrate(refs, Arr([Str(s), Str(s)]), {});
            r.Done? && r.tree == Arr([Hydrate(refs, Str(s), {}).tree, Str(s)])
  {
    var root, first := Arr([Str(s), Str(s)]), Hydrate(refs, Str(s), {});
    var rest, inlined := [Str(s)], {} + first.defs.Keys;
    assert Children(root)[1..] == rest;
    assert forall c :: c in rest ==> c in Children(root);
    assert s in inlined;
    assert Hydrate(refs, Str(s), inlined) == Done(Str(s), map[]);
    assert rest[1..] == [];
    assert HydrateAll(refs, rest, inlined, root).AllDone?;
    assert HydrateAll(refs, rest, inlined, root).trees == rest;
  }

  // ----- defined once

  ghost predicate DefinesOnce(refs: Refs, root: Value) {
    Fit(refs, root) ==> forall s :: s in refs ==> Definitions(Hydrate(refs, root, {}).tree, "", s) <= 1
  }

  /** Each reference name is defined at most once, in at most one of the definitions of n and m. */
  ghost predicate NoClash(refs: Refs, n: string, m: string) {
    Hydrates(refs, n) && Hydrates(refs, m) ==>
      forall s :: s in refs ==> Defines(refs, n, s) <= 1 && (n != m ==> Defines(refs, n, s) + Defines(refs, m, s) <= 1)
  }

  lemma {:induction false} TogetherAtMost(refs: Refs, names: seq<string>, s: string)
    requires s in refs && Distinct(names) && forall n :: n in names ==> Hydrates(refs, n)
    requires forall n, m :: n in names && m in names ==> NoClash(refs, n, m)
    ensures Together(refs, names, s) <= 1
    ensures Together(refs, names, s) == 1 ==> exists n :: n in names && Defines(refs, n, s) == 1
  {
    if names != [] {
      assert names[0] in names && forall n :: n in names[1..] ==> n in names;
      TogetherAtMost(refs, names[1..], s);
      assert NoClash(refs, names[0], names[0]);
      if Together(refs, names[1..], s) == 1 {
        var n :| n in names[1..] && Defines(refs, n, s) == 1;
        assert NoClash(refs, names[0], n);
      } else if Together(refs, names, s) == 1 {
        assert Defines(refs, names[0], s) == 1;
      }
    }
  }

  lemma {:induction false} TogetherAtLeast(refs: Refs, names: seq<string>, n: string, s: string)
    requires n in names
    ensures Together(refs, names, s) >= Defines(refs, n, s)
  {
    if names[0] != n {
      TogetherAtLeast(refs, names[1..], n, s);
    }
  }

  lemma {:induction false} TogetherByBoth(refs: Refs, names: seq<string>, n: string, m: string, s: string)
    requires n in names && m in names && n != m
    ensures Together(refs, names, s) >= Defines(refs, n, s) + Defines(refs, m, s)
  {
    if names[0] == n {
      TogetherAtLeast(refs, names[1..], m, s);
    } else if names[0] == m {
      TogetherAtLeast(refs, names[1..], n, s);
    } else {
      TogetherByBoth(refs, names[1..], n, m, s);
    }
  }

  /** In a well-named table whose walks open references in full, the output defines what its opened references define. */
  lemma DefinitionsAreTogether(refs: Refs, root: Value) returns (names: seq<string>)
    requires WellNamed(refs) && OpensInFull(refs) && Fit(refs, root)
    ensures Distinct(names) && forall s :: s in names ==> Hydrates(refs, s)
    ensures forall s :: s in Hydrate(refs, root, {}).defs ==> s in names
    ensures forall s :: s in refs ==> Definitions(Hydrate(refs, root, {}).tree, "", s) == Together(refs, names, s)
  {
    var places, defs := Places(refs, root, "", {}), Hydrate(refs, root, {}).defs;
    names := Names(places);
    OnePlaceEach(refs, root, "", {});
    forall s | s in defs ensures Hydrates(refs, s) {
      ExpandedHydrates(refs, root, s);
    }
    FitIsClear(refs, root, refs.Keys);
    SoundPlaces(refs, root, "", {}, refs.Keys);
    forall s | s in refs ensures Definitions(Hydrate(refs, root, {}).tree, "", s) == Together(refs, names, s) {
      DefinitionsConserved(refs, root, "", {}, s);
      ContributedTogether(refs, places, s);
    }
  }

  /** Two references that can be hydrated can be hydrated in one document, which expands both. */
  lemma HydratedPair(refs: Refs, n: string, m: string)
    requires Hydrates(refs, n) && Hydrates(refs, m)
    ensures var r := Hydrate(refs, Arr([Str(n), Str(m)]), {});
            r.Done? && n in r.defs && m in r.defs
  {
    var root := Arr([Str(n), Str(m)]);
    var r := Hydrate(refs, root, {});
    assert Children(root) == [Str(n), Str(m)];
    if r.Failed? {
      var t, hops := AvroMeaning.FailureWitness(refs, root, {});
      ReachedByOne(refs, n, m, t, hops);
      AvroMeaning.HydrationFailsIff(refs, Str(n));
      AvroMeaning.HydrationFailsIff(refs, Str(m));
      assert false;
    }
    AvroMeaning.WalkRelates(refs, root, {}, r.defs);
    assert AvroMeaning.RelatedAt(refs, r.defs, root, r.tree, {});
    assert Children(root)[0] == Str(n) && Children(root)[1] == Str(m);
    assert AvroMeaning.Uses(Str(n), n) && AvroMeaning.Uses(Str(m), m);
    AvroMeaning.UsedIsExpanded(refs, r.defs, root, r.tree, n);
    AvroMeaning.UsedIsExpanded(refs, r.defs, root, r.tree, m);
  }

  lemma ReachedByOne(refs: Refs, n: string, m: string, t: string, hops: nat)
    requires AvroMeaning.ReachesMalformed(refs, Arr([Str(n), Str(m)]), t, hops)
    ensures AvroMeaning.ReachesMalformed(refs, Str(n), t, hops) || AvroMeaning.ReachesMalformed(refs, Str(m), t, hops)
  {
    var root := Arr([Str(n), Str(m)]);
    assert forall x :: AvroMeaning.Uses(root, x) ==> AvroMeaning.Uses(Str(n), x) || AvroMeaning.Uses(Str(m), x) by {
      forall x | AvroMeaning.Uses(root, x) ensures AvroMeaning.Uses(Str(n), x) || AvroMeaning.Uses(Str(m), x) {
        var i := AvroMeaning.UsingChild(root, x);
        assert Children(root)[i] == Str(n) || Children(root)[i] == Str(m);
      }
    }
  }

  lemma ClashDefinesTwice(refs: Refs, n: string, m: string)
    requires WellNamed(refs) && OpensInFull(refs) && !NoClash(refs, n, m)
    ensures !DefinesOnce(refs, Arr([Str(n), Str(m)]))
  {
    var root := Arr([Str(n), Str(m)]);
    HydratedPair(refs, n, m);
    PairIsFree(refs, n, m);
    var names := DefinitionsAreTogether(refs, root);
    var s :| s in refs && !(Defines(refs, n, s) <= 1 && (n != m ==> Defines(refs, n, s) + Defines(refs, m, s) <= 1));
    TogetherAtLeast(refs, names, n, s);
    if n != m {
      TogetherByBoth(refs, names, n, m, s);
    }
  }

  lemma NoClashDefinesOnce(refs: Refs, root: Value)
    requires WellNamed(refs) && OpensInFull(refs) && forall n, m :: NoClash(refs, n, m)
    ensures DefinesOnce(refs, root)
  {
    if Fit(refs, root) {
      var names := DefinitionsAreTogether(refs, root);
      forall s | s in refs ensures Definitions(Hydrate(refs, root, {}).tree, "", s) <= 1 {
        TogetherAtMost(refs, names, s);
      }
    }
  }

  /**
   * In a well-named table whose references are opened in full, no document comes out defining a
   * reference twice exactly when the definitions together define each reference name at most once.
   */
  lemma DefinedOnceIff(refs: Refs)
    requires WellNamed(refs) && OpensInFull(refs)
    ensures (forall root :: DefinesOnce(refs, root)) <==> forall n, m :: NoClash(refs, n, m)
  {
    if forall n, m :: NoClash(refs, n, m) {
      forall root ensures DefinesOnce(refs, root) {
        NoClashDefinesOnce(refs, root);
      }
    } else {
      var n, m :| !NoClash(refs, n, m);
      ClashDefinesTwice(refs, n, m);
    }
  }
}
