/** Kinds of reference tables: when the conditions on a table reduce to simpler ones, and tables that fail. */
module AvroTables {
  import opened Json
  import opened AvroHydration
  import opened AvroNames
  import opened AvroScoping
  import opened AvroSpelling
  import opened AvroDocument
  import opened AvroFidelity
  import opened AvroReading
  import AvroMeaning

  // ----- tables that spell references in full

  ghost predicate SpelledTable(refs: Refs) {
    forall s :: Hydrates(refs, s) ==> refs[s].Some? && Spelled(refs, refs[s].value, "")
  }

  lemma {:induction false} SpelledIsClear(refs: Refs, node: Value, ns: string, inlined: set<string>)
    requires Hydrate(refs, node, inlined).Done? && Spelled(refs, node, ns)
    requires forall s :: s in Hydrate(refs, node, inlined).defs ==> refs[s].Some? && Spelled(refs, refs[s].value, "")
    ensures Clear(refs, node, ns, inlined, {})
    decreases refs.Keys - inlined, node, 1
  {
    if node.Str? {
      if node.s in refs && node.s !in inlined {
        assert node.s in Hydrate(refs, node, inlined).defs;
        SpelledIsClear(refs, refs[node.s].value, "", inlined + {node.s});
      }
    } else {
      SpelledAllClear(refs, Children(node), Inner(node, ns), inlined, node);
    }
  }

  lemma {:induction false} SpelledAllClear(refs: Refs, nodes: seq<Value>, ns: string, inlined: set<string>, whole: Value)
    requires forall c :: c in nodes ==> c < whole && Spelled(refs, c, ns)
    requires HydrateAll(refs, nodes, inlined, whole).AllDone?
    requires forall s :: s in HydrateAll(refs, nodes, inlined, whole).defs ==> refs[s].Some? && Spelled(refs, refs[s].value, "")
    ensures ClearAll(refs, nodes, ns, inlined, {}, whole)
    decreases refs.Keys - inlined, whole, 0, |nodes|
  {
    if nodes != [] {
      assert nodes[0] in nodes;
      assert forall c :: c in nodes[1..] ==> c in nodes;
      SpelledIsClear(refs, nodes[0], ns, inlined);
      SpelledAllClear(refs, nodes[1..], ns, inlined + Hydrate(refs, nodes[0], inlined).defs.Keys, whole);
    }
  }

  /** Where definitions spell references in full, names are all that matters. */
  lemma SpelledServesIff(refs: Refs)
    requires OwnNamesOnly(refs) && SpelledTable(refs)
    ensures (forall root :: Serves(refs, root)) <==> WellNamed(refs)
  {
    forall s ensures ClearAlone(refs, s, {}) {
      if Hydrates(refs, s) {
        forall t | t in Hydrate(refs, Str(s), {}).defs ensures Hydrates(refs, t) {
          ExpandedHydrates(refs, Str(s), t);
        }
        SpelledIsClear(refs, Str(s), "", {});
      }
    }
    DefinedBeforeUseIff(refs);
  }

  // ----- tables of dotted names

  ghost predicate Dotted(refs: Refs) {
    forall s :: s in refs ==> '.' in s
  }

  /** A name at a type position of the node means the full name r. */
  ghost predicate Means(node: Value, ns: string, r: string)
    decreases node
  {
    if node.Str? then Resolve(ns, node.s) == r
    else exists c :: c in Children(node) && Means(c, Inner(node, ns), r)
  }

  ghost predicate MeansOnly(refs: Refs, node: Value, ns: string, names: set<string>) {
    forall r :: r in refs && Means(node, ns, r) ==> r in names
  }

  ghost predicate AllMeanOnly(refs: Refs, defs: set<string>, names: set<string>) {
    forall s :: s in defs && s in refs && refs[s].Some? ==> MeansOnly(refs, refs[s].value, "", names)
  }

  /** With dotted names, a walk is clear exactly when all it walks means only what is defined. */
  lemma {:induction false} ClearIffMeans(refs: Refs, node: Value, ns: string, inlined: set<string>, names: set<string>)
    requires Dotted(refs) && Hydrate(refs, node, inlined).Done?
    requires inlined + Hydrate(refs, node, inlined).defs.Keys <= names
    ensures Clear(refs, node, ns, inlined, names) <==>
            MeansOnly(refs, node, ns, names) && AllMeanOnly(refs, Hydrate(refs, node, inlined).defs.Keys, names)
    decreases refs.Keys - inlined, node, 1
  {
    var defs := Hydrate(refs, node, inlined).defs.Keys;
    if node.Str? {
      assert MeansOnly(refs, node, ns, names) <==> (Resolve(ns, node.s) in refs ==> Resolve(ns, node.s) in names) by {
        assert Means(node, ns, Resolve(ns, node.s));
      }
      if node.s in refs && node.s !in inlined {
        ClearIffMeans(refs, refs[node.s].value, "", inlined + {node.s}, names);
        assert defs == Hydrate(refs, refs[node.s].value, inlined + {node.s}).defs.Keys + {node.s};
      }
    } else {
      ClearAllIffMean(refs, Children(node), Inner(node, ns), inlined, node, names);
      MeansOnlyParts(refs, node, ns, names);
    }
  }

  ghost predicate PartMeansOnly(refs: Refs, nodes: seq<Value>, ns: string, names: set<string>, i: nat)
    requires i < |nodes|
  {
    MeansOnly(refs, nodes[i], ns, names)
  }

  lemma MeansOnlyParts(refs: Refs, node: Value, ns: string, names: set<string>)
    requires !node.Str?
    ensures var parts := Children(node);
            MeansOnly(refs, node, ns, names) <==>
            forall i :: 0 <= i < |parts| ==> PartMeansOnly(refs, parts, Inner(node, ns), names, i)
  {
    var parts, inner := Children(node), Inner(node, ns);
    if MeansOnly(refs, node, ns, names) {
      forall i | 0 <= i < |parts| ensures PartMeansOnly(refs, parts, inner, names, i) {
        forall r | r in refs && Means(parts[i], inner, r) ensures r in names {
          assert Means(node, ns, r);
        }
      }
    }
    if forall i :: 0 <= i < |parts| ==> PartMeansOnly(refs, parts, inner, names, i) {
      forall r | r in refs && Means(node, ns, r) ensures r in names {
        var c :| c in parts && Means(c, inner, r);
        var i :| 0 <= i < |parts| && parts[i] == c;
        assert PartMeansOnly(refs, parts, inner, names, i);
      }
    }
  }

  lemma {:induction false} ClearAllIffMean(refs: Refs, nodes: seq<Value>, ns: string, inlined: set<string>, whole: Value,
                                           names: set<string>)
    requires forall c :: c in nodes ==> c < whole
    requires Dotted(refs) && HydrateAll(refs, nodes, inlined, whole).AllDone?
    requires inlined + HydrateAll(refs, nodes, inlined, whole).defs.Keys <= names
    ensures ClearAll(refs, nodes, ns, inlined, names, whole) <==>
            && (forall i :: 0 <= i < |nodes| ==> PartMeansOnly(refs, nodes, ns, names, i))
            && AllMeanOnly(refs, HydrateAll(refs, nodes, inlined, whole).defs.Keys, names)
    decreases refs.Keys - inlined, whole, 0, |nodes|
  {
    if nodes != [] {
      assert nodes[0] in nodes;
      assert forall c :: c in nodes[1..] ==> c in nodes;
      var first := Hydrate(refs, nodes[0], inlined).defs.Keys;
      var rest := HydrateAll(refs, nodes[1..], inlined + first, whole).defs.Keys;
      ClearIffMeans(refs, nodes[0], ns, inlined, names);
      ClearAllIffMean(refs, nodes[1..], ns, inlined + first, whole, names);
      PartsStep(refs, nodes, ns, names);
      assert HydrateAll(refs, nodes, inlined, whole).defs.Keys == first + rest;
    }
  }

  lemma PartsStep(refs: Refs, nodes: seq<Value>, ns: string, names: set<string>)
    requires nodes != []
    ensures (forall i :: 0 <= i < |nodes| ==> PartMeansOnly(refs, nodes, ns, names, i)) <==>
            && MeansOnly(refs, nodes[0], ns, names)
            && forall i :: 0 <= i < |nodes[1..]| ==> PartMeansOnly(refs, nodes[1..], ns, names, i)
  {
    var rest := nodes[1..];
    if forall i :: 0 <= i < |nodes| ==> PartMeansOnly(refs, nodes, ns, names, i) {
      assert PartMeansOnly(refs, nodes, ns, names, 0);
      forall i | 0 <= i < |rest| ensures PartMeansOnly(refs, rest, ns, names, i) {
        assert PartMeansOnly(refs, nodes, ns, names, i + 1);
      }
    }
    if MeansOnly(refs, nodes[0], ns, names) && forall i :: 0 <= i < |rest| ==> PartMeansOnly(refs, rest, ns, names, i) {
      forall i | 0 <= i < |nodes| ensures PartMeansOnly(refs, nodes, ns, names, i) {
        assert i > 0 ==> PartMeansOnly(refs, rest, ns, names, i - 1);
      }
    }
  }

  /** Each reference that a definition means, in whatever spelling, it also reaches by full names. */
  ghost predicate ReachesMeant(refs: Refs, s: string) {
    Hydrates(refs, s) ==> refs[s].Some? && MeansOnly(refs, refs[s].value, "", Settled(refs, s))
  }

  /**
   * Strings and names agree in a table of dotted names exactly when every definition reaches, by full
   * names, each well-formed reference that it means.
   */
  lemma AgreeingIff(refs: Refs)
    requires Dotted(refs)
    ensures Agreeing(refs) <==> forall s :: ReachesMeant(refs, s)
  {
    if Agreeing(refs) {
      forall s ensures ReachesMeant(refs, s) {
        assert ClearAlone(refs, s, Settled(refs, s));
        if Hydrates(refs, s) {
          ClearIffMeans(refs, Str(s), "", {}, Settled(refs, s));
          assert s in Hydrate(refs, Str(s), {}).defs.Keys;
        }
      }
    }
    if forall s :: ReachesMeant(refs, s) {
      forall s ensures ClearAlone(refs, s, Settled(refs, s)) {
        if Hydrates(refs, s) {
          ReachesMeantIsClear(refs, s);
        }
      }
    }
  }

  lemma ReachesMeantIsClear(refs: Refs, s: string)
    requires Dotted(refs) && Hydrates(refs, s) && forall t :: ReachesMeant(refs, t)
    ensures Clear(refs, Str(s), "", {}, Settled(refs, s))
  {
    var names := Settled(refs, s);
    forall t | t in Hydrate(refs, Str(s), {}).defs ensures refs[t].Some? && MeansOnly(refs, refs[t].value, "", names) {
      ExpandedHydrates(refs, Str(s), t);
      assert ReachesMeant(refs, t);
      SettledInDocument(refs, Str(s), t);
    }
    assert Children(Str(s)) == [];
    ClearIffMeans(refs, Str(s), "", {}, names);
  }

  // ----- tables that fail, and one that does not

  /** A record in a namespace with one field for each of the given type names. */
  function Record(name: string, ns: string, types: seq<string>): Value {
    Obj(map["type" := Str("record"), "name" := Str(name), "namespace" := Str(ns), "fields" := Arr(FieldsOf(types))])
  }

  function FieldsOf(types: seq<string>): seq<Value> {
    if types == [] then [] else [Obj(map["name" := Str("f"), "type" := Str(types[0])])] + FieldsOf(types[1..])
  }

  function NamesOf(types: seq<string>): seq<Value> {
    if types == [] then [] else [Str(types[0])] + NamesOf(types[1..])
  }

  lemma {:induction false} TypesOfFields(types: seq<string>)
    ensures FieldTypes(FieldsOf(types)) == NamesOf(types)
  {
    if types != [] {
      TypesOfFields(types[1..]);
      assert FieldsOf(types)[1..] == FieldsOf(types[1..]);
    }
  }

  predicate Simple(name: string) {
    name != "" && '.' !in name && name !in Primitives
  }

  lemma RecordFacts(name: string, ns: string, types: seq<string>)
    requires Simple(name)
    ensures Children(Record(name, ns, types)) == NamesOf(types)
    ensures forall at :: Inner(Record(name, ns, types), at) == if ns == "" then at else ns
    ensures forall at :: Defined(Record(name, ns, types), at) == {Qualify(if ns == "" then at else ns, name)}
  {
    TypesOfFields(types);
    var v := Record(name, ns, types);
    assert v.StrAt("type") == "record" && v.StrAt("name") == name && v.StrAt("namespace") == ns;
  }

  lemma {:induction false} NamesDefineNothing(types: seq<string>, ns: string, s: string, whole: Value)
    requires forall c :: c in NamesOf(types) ==> c < whole
    ensures DefinitionsIn(NamesOf(types), ns, s, whole) == 0
    decreases |types|
  {
    if types != [] {
      NameDefinesNothing(types[0], ns, s);
      assert NamesOf(types)[1..] == NamesOf(types[1..]);
      assert forall c :: c in NamesOf(types[1..]) ==> c in NamesOf(types);
      NamesDefineNothing(types[1..], ns, s, whole);
    }
  }

  /** A record of simple fields defines its own name and nothing else. */
  lemma RecordDefines(name: string, ns: string, types: seq<string>, at: string, s: string)
    requires Simple(name)
    ensures Definitions(Record(name, ns, types), at, s) == if s == Qualify(if ns == "" then at else ns, name) then 1 else 0
  {
    RecordFacts(name, ns, types);
    NamesDefineNothing(types, Inner(Record(name, ns, types), at), s, Record(name, ns, types));
  }

  /** A table whose entries are records, each registered under its full name. */
  ghost predicate OfRecord(refs: Refs, s: string, name: string, ns: string, types: seq<string>) {
    s in refs && refs[s] == Some(Record(name, ns, types)) && Simple(name) && s == Qualify(ns, name)
  }

  ghost predicate OfRecords(refs: Refs) {
    forall s :: s in refs ==> exists name, ns, types :: OfRecord(refs, s, name, ns, types)
  }

  lemma RecordsAreOwn(refs: Refs)
    requires OfRecords(refs)
    ensures WellNamed(refs) && OwnNamesOnly(refs)
  {
    forall s | s in refs ensures Declares(refs, s) && OwnNameOnly(refs, s) {
      var name, ns, types :| OfRecord(refs, s, name, ns, types);
      RecordFacts(name, ns, types);
      forall t | t in refs ensures Defines(refs, s, t) == if t == s then 1 else 0 {
        RecordDefines(name, ns, types, "", t);
      }
    }
  }

  /** The meaning of a record's only field. */
  lemma {:induction false} OneField(env: Env, v: Value, t: string)
    requires Children(v) == [Str(t)]
    ensures var shape := Unfold(env, At(v, ""), 2);
            shape.Type? && |shape.parts| == 1 && shape.parts[0] == Unfold(env, At(Str(t), Inner(v, "")), 1)
  {
    HeadTo(env, At(v, ""), At(v, ""));
    assert Unfold(env, At(v, ""), 2) == Opened(env, At(v, ""), 1);
    UnfoldAllAt(env, [Str(t)], Inner(v, ""), 1, 0);
  }

  /** A one-field record whose field type is left alone hydrates to itself. */
  lemma {:induction false} FieldLeftAlone(refs: Refs, s: string, v: Value, t: string)
    requires s in refs && refs[s] == Some(v) && Children(v) == [Str(t)] && !v.Str? && (t !in refs || t == s)
    ensures Hydrates(refs, s) && Hydrate(refs, Str(s), {}) == Done(v, map[s := v])
    ensures Hydrate(refs, v, {s}) == Done(v, map[])
  {
    var rest: seq<Value> := [];
    assert Hydrate(refs, Str(t), {s}) == Done(Str(t), map[]);
    assert Children(v)[1..] == rest;
    assert HydrateAll(refs, rest, {s} + {}, v) == AllDone([], map[]);
    assert HydrateAll(refs, Children(v), {s}, v) == AllDone([Str(t)], map[]);
    NodeLens(v, [Str(t)]);
    assert {} + {s} == {s};
  }

  lemma QualifiedFacts(ns: string, name: string)
    requires ns != "" && Simple(name)
    ensures var q := Qualify(ns, name);
            '.' in q && q[|ns| + 1..] == name && Resolve(ns, name) == q && forall at :: Resolve(at, q) == q
  {
    var q := Qualify(ns, name);
    assert q[|ns|] == '.';
    forall p | p in Primitives ensures q != p {
      assert '.' !in p;
    }
  }

  /** Records a and b of one namespace, a with a field whose type is written as b alone. */
  function ShortNameTable(ns: string, a: string, b: string): Refs {
    map[Qualify(ns, a) := Some(Record(a, ns, [b])), Qualify(ns, b) := Some(Record(b, ns, []))]
  }

  /**
   * A definition that uses another reference by its short name: the code leaves the name alone, and
   * the document uses a type it does not define.
   */
  lemma {:induction false} ShortNameDangles(ns: string, a: string, b: string)
    requires ns != "" && Simple(a) && Simple(b) && a != b
    ensures var refs, root := ShortNameTable(ns, a, b), Str(Qualify(ns, a));
            && OwnNamesOnly(refs) && WellNamed(refs) && Fit(refs, root)
            && Hydrate(refs, root, {}).tree == Record(a, ns, [b])
            && !ReadsInOrder(refs, root) && !KeepsMeaning(refs, root, 2)
  {
    var refs, s, r := ShortNameTable(ns, a, b), Qualify(ns, a), Qualify(ns, b);
    QualifiedFacts(ns, a);
    QualifiedFacts(ns, b);
    assert s != r && b !in refs;
    assert OfRecord(refs, s, a, ns, [b]) && OfRecord(refs, r, b, ns, []);
    RecordsAreOwn(refs);
    RecordFacts(a, ns, [b]);
    assert NamesOf([b]) == [Str(b)];
    FieldDangles(refs, s, r, Record(a, ns, [b]), b);
  }

  /** A record whose field type means a reference other than itself cannot be read on its own. */
  lemma {:induction false} FieldUnread(names: set<string>, s: string, v: Value, t: string)
    requires Children(v) == [Str(t)] && !v.Str? && Defined(v, "") == {s}
    requires Resolve(Inner(v, ""), t) in names && Resolve(Inner(v, ""), t) != s
    ensures Read(names, v, "", {}).None?
  {
    assert {} + {s} == {s};
    assert Children(v)[0] == Str(t);
    assert Read(names, Str(t), Inner(v, ""), {s}).None?;
  }

  /** Nor does it define that reference. */
  lemma {:induction false} FieldUndefined(refs: Refs, s: string, v: Value, t: string, r: string)
    requires Children(v) == [Str(t)] && Defined(v, "") == {s} && r != s
    ensures r !in InDocument(refs, v)
  {
    NameDefinesNothing(t, Inner(v, ""), r);
    DefinitionsStep(Children(v), Inner(v, ""), r, v);
    FoundIffDefined(At(v, ""), r);
  }

  lemma {:induction false} FieldDangles(refs: Refs, s: string, r: string, v: Value, t: string)
    requires s in refs && refs[s] == Some(v) && Children(v) == [Str(t)] && !v.Str? && t !in refs
    requires Defined(v, "") == {s} && Resolve(Inner(v, ""), t) == r != s && r in refs && refs[r].Some?
    ensures Fit(refs, Str(s)) && Hydrate(refs, Str(s), {}).tree == v
    ensures !ReadsInOrder(refs, Str(s)) && !KeepsMeaning(refs, Str(s), 2)
  {
    FieldLeftAlone(refs, s, v, t);
    NameIsFit(refs, s);
    FieldUnread(refs.Keys, s, v, t);
    FieldUndefined(refs, s, v, t, r);
    var env := InDocument(refs, v);
    OneField(env, v, t);
    OneField(Table(refs), v, t);
    NameMeansMore(refs, env, At(Str(t), Inner(v, "")));
    HeadTo(Table(refs), At(Str(s), ""), At(v, ""));
    HeadTo(Table(refs), At(v, ""), At(v, ""));
    assert Unfold(Table(refs), At(Str(s), ""), 2) == Unfold(Table(refs), At(v, ""), 2);
  }

  /**
   * A reference without a namespace, used inside one: the code takes the string for the reference, and
   * the definition it writes there gets another full name.
   */
  lemma {:induction false} RootTypeCaptured(ns: string, a: string, b: string)
    requires ns != "" && Simple(a) && Simple(b)
    ensures var refs: Refs := map[Qualify(ns, a) := Some(Record(a, ns, [b])), b := Some(Record(b, "", []))];
            OwnNamesOnly(refs) && WellNamed(refs) && exists root, depth: nat :: !KeepsMeaning(refs, root, depth)
  {
    var refs: Refs := map[Qualify(ns, a) := Some(Record(a, ns, [b])), b := Some(Record(b, "", []))];
    var s, v := Qualify(ns, a), Record(a, ns, [b]);
    QualifiedFacts(ns, a);
    QualifiedFacts(ns, b);
    assert OfRecord(refs, s, a, ns, [b]) && OfRecord(refs, b, b, "", []);
    RecordsAreOwn(refs);
    RecordFacts(a, ns, [b]);
    assert NamesOf([b]) == [Str(b)];
    if Hydrate(refs, Str(s), {}).Failed? {
      var t, hops := AvroMeaning.FailureWitness(refs, Str(s), {});
      assert false;
    }
    FieldOpened(refs, s, v, b, Settled(refs, s));
    MeaningKeptIff(refs);
  }

  /** A field type that is opened where it is not a full name makes a walk unclear. */
  lemma {:induction false} FieldOpened(refs: Refs, s: string, v: Value, t: string, elsewhere: set<string>)
    requires Hydrates(refs, s) && refs[s] == Some(v) && Children(v) == [Str(t)] && !v.Str?
    requires t in refs && t != s && Resolve(Inner(v, ""), t) != t
    ensures !ClearAlone(refs, s, elsewhere)
  {
    var inlined: set<string> := {} + {s};
    assert Children(v)[0] == Str(t) && t !in inlined;
    assert Hydrate(refs, v, inlined).Done?;
    assert HydrateAll(refs, Children(v), inlined, v).AllDone?;
    assert !ClearAll(refs, Children(v), Inner(v, ""), inlined, elsewhere, v);
    assert !Clear(refs, v, "", inlined, elsewhere);
  }

  /** A definition may use its own reference by its short name. */
  lemma {:induction false} OwnShortNameServes(ns: string, a: string, root: Value)
    requires ns != "" && Simple(a)
    ensures Serves(map[Qualify(ns, a) := Some(Record(a, ns, [a]))], root)
  {
    var s, v := Qualify(ns, a), Record(a, ns, [a]);
    var refs: Refs := map[s := Some(v)];
    QualifiedFacts(ns, a);
    assert OfRecord(refs, s, a, ns, [a]);
    RecordsAreOwn(refs);
    RecordFacts(a, ns, [a]);
    assert NamesOf([a]) == [Str(a)];
    FieldLeftAlone(refs, s, v, a);
    assert ClearAlone(refs, s, {}) by {
      var rest: seq<Value> := [];
      assert {} + {s} == {s} && Children(v)[1..] == rest && Inner(v, "") == ns;
      assert Clear(refs, Str(a), ns, {s}, {});
      assert ClearAll(refs, rest, ns, {s} + Hydrate(refs, Str(a), {s}).defs.Keys, {}, v);
      assert ClearAll(refs, Children(v), ns, {s}, {}, v);
    }
    assert Ordered(refs);
    DefinedBeforeUseIff(refs);
  }

  /** The shortest failing table: a reference that stands for a primitive type, used twice. */
  lemma {:induction false} PrimitiveReferenceDangles(s: string)
    requires s != "string"
    ensures var refs: Refs := map[s := Some(Str("string"))];
            var root := Arr([Str(s), Str(s)]);
            Fit(refs, root) && !ReadsInOrder(refs, root) && !KeepsMeaning(refs, root, 2)
  {
    var refs: Refs := map[s := Some(Str("string"))];
    assert Hydrate(refs, Str("string"), {} + {s}) == Done(Str("string"), map[]);
    assert Hydrates(refs, s);
    NameDefinesNothing("string", "", s);
    assert OwnNameOnly(refs, s);
    HydratedTwice(refs, s);
    PairIsFree(refs, s, s);
    UndeclaredChangesMeaning(refs, s);
    UnreadAfterName(refs.Keys, "string", s);
  }

  lemma {:induction false} UnreadAfterName(names: set<string>, t: string, s: string)
    requires s in names && t !in names
    ensures Read(names, Arr([Str(t), Str(s)]), "", {}).None?
  {
    var root, rest := Arr([Str(t), Str(s)]), [Str(s)];
    assert Children(root)[1..] == rest && forall c :: c in rest ==> c in Children(root);
    assert Children(Str(t)) == [];
    assert Read(names, Str(t), "", {} + Defined(root, "")) == Some({});
    assert Read(names, Str(s), "", {}).None?;
    assert ReadAll(names, rest, "", {}, root).None?;
  }
}
