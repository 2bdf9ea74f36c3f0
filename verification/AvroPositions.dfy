/**
 * Which positions of a schema document are hydrated, by the keys they stand under: the
 * values of maps, the items of arrays, the type of each field of a record or error, and
 * the branches of unions. Everything else is left alone.
 */
module AvroPositions {
  import opened Json
  import opened AvroHydration

  type Entries = map<string, Value>

  ghost predicate TypeIs(m: Entries, typ: string) {
    "type" in m && m["type"] == Str(typ)
  }

  /** The object hydrated at one key, and nowhere else. */
  ghost predicate OnlyAt(refs: Refs, m: Entries, key: string, inlined: set<string>)
    requires key in m
  {
    var r, part := Hydrate(refs, Obj(m), inlined), Hydrate(refs, m[key], inlined);
    if part.Failed? then r == Failed else r == Done(Obj(m[key := part.tree]), part.defs)
  }

  /** A single position is hydrated as it would be on its own. */
  lemma OnePart(refs: Refs, v: Value, part: Value, inlined: set<string>)
    requires !v.Str? && Children(v) == [part]
    ensures var r, p := Hydrate(refs, v, inlined), Hydrate(refs, part, inlined);
            if p.Failed? then r == Failed else r == Done(Plug(v, [p.tree]), p.defs)
  {
    var p := Hydrate(refs, part, inlined);
    assert Children(v)[1..] == [];
    if p.Done? {
      assert HydrateAll(refs, [], inlined + p.defs.Keys, v) == AllDone([], map[]);
      assert p.defs + map[] == p.defs && [p.tree] + [] == [p.tree];
    }
  }

  lemma {:induction false} MapValues(refs: Refs, m: Entries, inlined: set<string>)
    requires TypeIs(m, "map") && "values" in m
    ensures OnlyAt(refs, m, "values", inlined)
  {
    assert Obj(m).StrAt("type") == "map";
    OnePart(refs, Obj(m), m["values"], inlined);
  }

  lemma {:induction false} ArrayItems(refs: Refs, m: Entries, inlined: set<string>)
    requires TypeIs(m, "array") && "items" in m
    ensures OnlyAt(refs, m, "items", inlined)
  {
    assert Obj(m).StrAt("type") == "array";
    OnePart(refs, Obj(m), m["items"], inlined);
  }

  // ----- lists of positions

  /** One entry of a field list: its type is hydrated if it is an object that has one. */
  ghost predicate FieldStep(refs: Refs, f: Value, out: Value, before: set<string>, after: set<string>) {
    if f.Obj? && "type" in f.entries then
      var r := Hydrate(refs, f.entries["type"], before);
      r.Done? && out == Obj(f.entries["type" := r.tree]) && after == before + r.defs.Keys
    else out == f && after == before
  }

  ghost predicate FieldFails(refs: Refs, f: Value, before: set<string>) {
    f.Obj? && "type" in f.entries && Hydrate(refs, f.entries["type"], before).Failed?
  }

  ghost predicate BranchStep(refs: Refs, v: Value, out: Value, before: set<string>, after: set<string>) {
    var r := Hydrate(refs, v, before);
    r.Done? && out == r.tree && after == before + r.defs.Keys
  }

  /** The entries are hydrated from left to right, each after the names its predecessors expanded. */
  ghost predicate FieldsFrom(refs: Refs, fields: seq<Value>, outs: seq<Value>, at: seq<set<string>>, inlined: set<string>) {
    && |outs| <= |fields| && |at| == |outs| + 1 && at[0] == inlined
    && forall i :: 0 <= i < |outs| ==> FieldStep(refs, fields[i], outs[i], at[i], at[i + 1])
  }

  ghost predicate BranchesFrom(refs: Refs, vs: seq<Value>, outs: seq<Value>, at: seq<set<string>>, inlined: set<string>) {
    && |outs| <= |vs| && |at| == |outs| + 1 && at[0] == inlined
    && forall i :: 0 <= i < |outs| ==> BranchStep(refs, vs[i], outs[i], at[i], at[i + 1])
  }

  lemma FieldsPrepend(refs: Refs, fields: seq<Value>, out: Value, outs: seq<Value>, at: seq<set<string>>,
                      inlined: set<string>, next: set<string>)
    requires fields != [] && FieldStep(refs, fields[0], out, inlined, next)
    requires FieldsFrom(refs, fields[1..], outs, at, next)
    ensures FieldsFrom(refs, fields, [out] + outs, [inlined] + at, inlined)
  {
    var outs', at' := [out] + outs, [inlined] + at;
    forall i | 0 <= i < |outs'| ensures FieldStep(refs, fields[i], outs'[i], at'[i], at'[i + 1]) {
      if i > 0 {
        assert FieldStep(refs, fields[1..][i - 1], outs[i - 1], at[i - 1], at[i]);
      }
    }
  }

  lemma BranchesPrepend(refs: Refs, vs: seq<Value>, out: Value, outs: seq<Value>, at: seq<set<string>>,
                        inlined: set<string>, next: set<string>)
    requires vs != [] && BranchStep(refs, vs[0], out, inlined, next)
    requires BranchesFrom(refs, vs[1..], outs, at, next)
    ensures BranchesFrom(refs, vs, [out] + outs, [inlined] + at, inlined)
  {
    var outs', at' := [out] + outs, [inlined] + at;
    forall i | 0 <= i < |outs'| ensures BranchStep(refs, vs[i], outs'[i], at'[i], at'[i + 1]) {
      if i > 0 {
        assert BranchStep(refs, vs[1..][i - 1], outs[i - 1], at[i - 1], at[i]);
      }
    }
  }

  /** What the first entry leaves of a field list. */
  lemma FirstField(refs: Refs, fields: seq<Value>, inlined: set<string>, whole: Value)
    requires fields != [] && forall c :: c in FieldTypes(fields) ==> c < whole
    ensures forall c :: c in FieldTypes(fields[1..]) ==> c < whole
    ensures !HasType(fields[0]) ==> FieldTypes(fields) == FieldTypes(fields[1..])
    ensures HasType(fields[0]) ==>
              var first := Hydrate(refs, fields[0].entries["type"], inlined);
              var all := HydrateAll(refs, FieldTypes(fields), inlined, whole);
              if first.Failed? then all == OneFailed
              else
                var rest := HydrateAll(refs, FieldTypes(fields[1..]), inlined + first.defs.Keys, whole);
                if rest.OneFailed? then all == OneFailed else all == AllDone([first.tree] + rest.trees, first.defs + rest.defs)
  {
    var types := FieldTypes(fields);
    if HasType(fields[0]) {
      assert types[0] == fields[0].entries["type"] && types[1..] == FieldTypes(fields[1..]);
      assert forall c :: c in types[1..] ==> c in types;
    }
  }

  lemma PlugFirst(fields: seq<Value>, tree: Value, trees: seq<Value>)
    requires fields != [] && HasType(fields[0]) && |trees| == |FieldTypes(fields[1..])|
    ensures |[tree] + trees| == |FieldTypes(fields)|
    ensures PlugFields(fields, [tree] + trees) == [Obj(fields[0].entries["type" := tree])] + PlugFields(fields[1..], trees)
  {
    assert ([tree] + trees)[1..] == trees;
  }

  /** How far a field list is hydrated, and what becomes of it. */
  ghost predicate FieldsEnd(refs: Refs, fields: seq<Value>, inlined: set<string>, whole: Value, outs: seq<Value>, at: seq<set<string>>)
    requires forall c :: c in FieldTypes(fields) ==> c < whole
  {
    && FieldsFrom(refs, fields, outs, at, inlined)
    && var r := HydrateAll(refs, FieldTypes(fields), inlined, whole);
       if r.AllDone? then |outs| == |fields| && outs == PlugFields(fields, r.trees) && at[|outs|] == inlined + r.defs.Keys
       else |outs| < |fields| && FieldFails(refs, fields[|outs|], at[|outs|])
  }

  lemma UntypedEnd(refs: Refs, fields: seq<Value>, inlined: set<string>, whole: Value, outs: seq<Value>, at: seq<set<string>>)
    requires fields != [] && !HasType(fields[0]) && forall c :: c in FieldTypes(fields) ==> c < whole
    requires FieldsEnd(refs, fields[1..], inlined, whole, outs, at)
    ensures FieldsEnd(refs, fields, inlined, whole, [fields[0]] + outs, [inlined] + at)
  {
    FieldsPrepend(refs, fields, fields[0], outs, at, inlined, inlined);
  }

  lemma TypedEnd(refs: Refs, fields: seq<Value>, inlined: set<string>, whole: Value, outs: seq<Value>, at: seq<set<string>>)
    requires fields != [] && HasType(fields[0]) && forall c :: c in FieldTypes(fields) ==> c < whole
    requires forall c :: c in FieldTypes(fields[1..]) ==> c < whole
    requires Hydrate(refs, fields[0].entries["type"], inlined).Done?
    requires FieldsEnd(refs, fields[1..], inlined + Hydrate(refs, fields[0].entries["type"], inlined).defs.Keys, whole, outs, at)
    ensures var first := Hydrate(refs, fields[0].entries["type"], inlined);
            FieldsEnd(refs, fields, inlined, whole, [Obj(fields[0].entries["type" := first.tree])] + outs, [inlined] + at)
  {
    var first := Hydrate(refs, fields[0].entries["type"], inlined);
    var next, out := inlined + first.defs.Keys, Obj(fields[0].entries["type" := first.tree]);
    FirstField(refs, fields, inlined, whole);
    FieldsPrepend(refs, fields, out, outs, at, inlined, next);
    var rest := HydrateAll(refs, FieldTypes(fields[1..]), next, whole);
    if rest.AllDone? {
      PlugFirst(fields, first.tree, rest.trees);
    }
  }

  lemma {:induction false} FieldsHydrated(refs: Refs, fields: seq<Value>, inlined: set<string>, whole: Value)
      returns (outs: seq<Value>, at: seq<set<string>>)
    requires forall c :: c in FieldTypes(fields) ==> c < whole
    ensures FieldsEnd(refs, fields, inlined, whole, outs, at)
    decreases |fields|
  {
    outs, at := [], [inlined];
    if fields != [] {
      FirstField(refs, fields, inlined, whole);
      if !HasType(fields[0]) {
        var outs', at' := FieldsHydrated(refs, fields[1..], inlined, whole);
        UntypedEnd(refs, fields, inlined, whole, outs', at');
        outs, at := [fields[0]] + outs', [inlined] + at';
      } else {
        var first := Hydrate(refs, fields[0].entries["type"], inlined);
        if first.Done? {
          var outs', at' := FieldsHydrated(refs, fields[1..], inlined + first.defs.Keys, whole);
          TypedEnd(refs, fields, inlined, whole, outs', at');
          outs, at := [Obj(fields[0].entries["type" := first.tree])] + outs', [inlined] + at';
        }
      }
    }
  }

  /**
   * Records and errors: in order, the type of every field is hydrated; or hydration fails at the first
   * field whose type cannot be.
   */
  lemma {:induction false} RecordFields(refs: Refs, m: Entries, inlined: set<string>)
      returns (outs: seq<Value>, at: seq<set<string>>)
    requires (TypeIs(m, "record") || TypeIs(m, "error")) && "fields" in m && m["fields"].Arr?
    ensures FieldsFrom(refs, m["fields"].elems, outs, at, inlined)
    ensures var r, fields := Hydrate(refs, Obj(m), inlined), m["fields"].elems;
            if r.Done? then |outs| == |fields| && r.tree == Obj(m["fields" := Arr(outs)]) && at[|outs|] == inlined + r.defs.Keys
            else |outs| < |fields| && FieldFails(refs, fields[|outs|], at[|outs|])
  {
    var v := Obj(m);
    assert v.StrAt("type") == "record" || v.StrAt("type") == "error";
    assert Children(v) == FieldTypes(m["fields"].elems);
    outs, at := FieldsHydrated(refs, m["fields"].elems, inlined, v);
  }

  lemma {:induction false} BranchesHydrated(refs: Refs, vs: seq<Value>, inlined: set<string>, whole: Value)
      returns (outs: seq<Value>, at: seq<set<string>>)
    requires forall c :: c in vs ==> c < whole
    ensures BranchesFrom(refs, vs, outs, at, inlined)
    ensures var r := HydrateAll(refs, vs, inlined, whole);
            if r.AllDone? then outs == r.trees && at[|outs|] == inlined + r.defs.Keys
            else |outs| < |vs| && Hydrate(refs, vs[|outs|], at[|outs|]).Failed?
  {
    outs, at := [], [inlined];
    if vs != [] {
      assert vs[0] in vs && forall c :: c in vs[1..] ==> c in vs;
      var first := Hydrate(refs, vs[0], inlined);
      if first.Done? {
        var outs', at' := BranchesHydrated(refs, vs[1..], inlined + first.defs.Keys, whole);
        BranchesPrepend(refs, vs, first.tree, outs', at', inlined, inlined + first.defs.Keys);
        outs, at := [first.tree] + outs', [inlined] + at';
      }
    }
  }

  /** Unions: every branch is hydrated in order, or hydration fails at the first that cannot be. */
  lemma {:induction false} UnionBranches(refs: Refs, vs: seq<Value>, inlined: set<string>)
      returns (outs: seq<Value>, at: seq<set<string>>)
    ensures BranchesFrom(refs, vs, outs, at, inlined)
    ensures var r := Hydrate(refs, Arr(vs), inlined);
            if r.Done? then |outs| == |vs| && r.tree == Arr(outs) && at[|outs|] == inlined + r.defs.Keys
            else |outs| < |vs| && Hydrate(refs, vs[|outs|], at[|outs|]).Failed?
  {
    outs, at := BranchesHydrated(refs, vs, inlined, Arr(vs));
  }

  /** A value with no position to hydrate: no list, and no object of the five kinds with the key of its kind. */
  ghost predicate Closed(v: Value) {
    && !v.Str? && !v.Arr?
    && (v.Obj? ==>
          && (TypeIs(v.entries, "map") ==> "values" !in v.entries)
          && (TypeIs(v.entries, "array") ==> "items" !in v.entries)
          && (TypeIs(v.entries, "record") || TypeIs(v.entries, "error") ==>
                "fields" !in v.entries || !v.entries["fields"].Arr?))
  }

  lemma {:induction false} RestUntouched(refs: Refs, v: Value, inlined: set<string>)
    requires Closed(v)
    ensures Hydrate(refs, v, inlined) == Done(v, map[])
  {
    assert Children(v) == [];
    assert HydrateAll(refs, [], inlined, v) == AllDone([], map[]);
  }

  /** A string is replaced exactly when it names a reference not expanded yet, by that reference's hydrated definition. */
  lemma {:induction false} NameReplaced(refs: Refs, s: string, inlined: set<string>)
    ensures s in inlined || s !in refs ==> Hydrate(refs, Str(s), inlined) == Done(Str(s), map[])
    ensures s !in inlined && s in refs && refs[s] == None ==> Hydrate(refs, Str(s), inlined) == Failed
    ensures s !in inlined && s in refs && refs[s].Some? ==>
              var r, def := Hydrate(refs, Str(s), inlined), Hydrate(refs, refs[s].value, inlined + {s});
              if def.Failed? then r == Failed
              else r.Done? && r.tree == def.tree && r.defs.Keys == def.defs.Keys + {s} && r.defs[s] == def.tree
  {
  }
}
