/** The walk that hydrates a schema, one shared set of expanded names updated as it goes. */
module AvroHydrator {
  import opened Json
  import opened AvroHydration

  /** Continues a partly finished pass over positions. */
  ghost function Resume(trees: seq<Value>, defs: map<string, Value>, rest: Hydrations): Hydrations {
    if rest.AllDone? then AllDone(trees + rest.trees, defs + rest.defs) else OneFailed
  }

  lemma ResumeStep(refs: Refs, nodes: seq<Value>, inlined: set<string>, whole: Value, trees: seq<Value>, defs: map<string, Value>)
    requires forall c :: c in nodes ==> c < whole
    requires nodes != []
    ensures forall c :: c in nodes[1..] ==> c < whole
    ensures var first := AvroHydration.Hydrate(refs, nodes[0], inlined);
            Resume(trees, defs, HydrateAll(refs, nodes, inlined, whole)) ==
            if first.Failed? then OneFailed
            else Resume(trees + [first.tree], defs + first.defs, HydrateAll(refs, nodes[1..], inlined + first.defs.Keys, whole))
  {
    assert forall c :: c in nodes[1..] ==> c in nodes;
    var first := AvroHydration.Hydrate(refs, nodes[0], inlined);
    if first.Done? {
      ResumeTwice(trees, defs, [first.tree], first.defs, HydrateAll(refs, nodes[1..], inlined + first.defs.Keys, whole));
    }
  }

  /** One record field with its type hydrated; a field without a type stays. */
  ghost function FieldHydration(refs: Refs, f: Value, inlined: set<string>): (r: Hydration)
    ensures r.Done? ==> r.defs.Keys !! inlined && r.defs.Keys <= refs.Keys
  {
    if !HasType(f) then Done(f, map[])
    else
      var r := AvroHydration.Hydrate(refs, f.entries["type"], inlined);
      if r.Done? then Done(Obj(f.entries["type" := r.tree]), r.defs) else Failed
  }

  /** The walk over a record's field list. */
  ghost function WalkFields(refs: Refs, fields: seq<Value>, inlined: set<string>): Hydrations {
    if fields == [] then AllDone([], map[])
    else
      var first := FieldHydration(refs, fields[0], inlined);
      if first.Failed? then OneFailed
      else Resume([first.tree], first.defs, WalkFields(refs, fields[1..], inlined + first.defs.Keys))
  }

  lemma ResumeTwice(trees: seq<Value>, defs: map<string, Value>, trees': seq<Value>, defs': map<string, Value>, rest: Hydrations)
    ensures Resume(trees, defs, Resume(trees', defs', rest)) == Resume(trees + trees', defs + defs', rest)
  {
    if rest.AllDone? {
      assert trees + (trees' + rest.trees) == (trees + trees') + rest.trees;
      assert defs + (defs' + rest.defs) == (defs + defs') + rest.defs;
    }
  }

  lemma WalkFieldsStep(refs: Refs, fields: seq<Value>, inlined: set<string>, trees: seq<Value>, defs: map<string, Value>)
    requires fields != []
    ensures var first := FieldHydration(refs, fields[0], inlined);
            Resume(trees, defs, WalkFields(refs, fields, inlined)) ==
            if first.Failed? then OneFailed
            else Resume(trees + [first.tree], defs + first.defs, WalkFields(refs, fields[1..], inlined + first.defs.Keys))
  {
    var first := FieldHydration(refs, fields[0], inlined);
    if first.Done? {
      ResumeTwice(trees, defs, [first.tree], first.defs, WalkFields(refs, fields[1..], inlined + first.defs.Keys));
    }
  }

  /** A pass over the field types, put back into the field list. */
  ghost function PutBack(fields: seq<Value>, types: Hydrations): Hydrations
    requires types.AllDone? ==> |types.trees| == |FieldTypes(fields)|
  {
    if types.AllDone? then AllDone(PlugFields(fields, types.trees), types.defs) else OneFailed
  }

  lemma PutBackStep(fields: seq<Value>, tree: Value, defs: map<string, Value>, rest: Hydrations)
    requires fields != [] && HasType(fields[0])
    requires rest.AllDone? ==> |rest.trees| == |FieldTypes(fields[1..])|
    ensures PutBack(fields, Resume([tree], defs, rest)) ==
            Resume([Obj(fields[0].entries["type" := tree])], defs, PutBack(fields[1..], rest))
  {
    if rest.AllDone? {
      assert ([tree] + rest.trees)[1..] == rest.trees;
    }
  }

  lemma PutBackSkip(fields: seq<Value>, rest: Hydrations)
    requires fields != [] && !HasType(fields[0])
    requires rest.AllDone? ==> |rest.trees| == |FieldTypes(fields[1..])|
    ensures PutBack(fields, rest) == Resume([fields[0]], map[], PutBack(fields[1..], rest))
  {
    assert rest.AllDone? ==> map[] + rest.defs == rest.defs;
  }

  /** What walking the field list comes to: hydrating the field types and putting them back. */
  ghost predicate WalksTypes(refs: Refs, fields: seq<Value>, inlined: set<string>, record: Value) {
    && (forall c :: c in FieldTypes(fields) ==> c < record)
    && WalkFields(refs, fields, inlined) == PutBack(fields, HydrateAll(refs, FieldTypes(fields), inlined, record))
  }

  lemma TypedFieldWalks(refs: Refs, fields: seq<Value>, inlined: set<string>, record: Value)
    requires fields != [] && HasType(fields[0]) && forall c :: c in FieldTypes(fields) ==> c < record
    requires var first := AvroHydration.Hydrate(refs, fields[0].entries["type"], inlined);
             first.Done? ==> WalksTypes(refs, fields[1..], inlined + first.defs.Keys, record)
    ensures WalksTypes(refs, fields, inlined, record)
  {
    var types, rest := FieldTypes(fields), FieldTypes(fields[1..]);
    assert types[0] == fields[0].entries["type"] && types[1..] == rest;
    var first := AvroHydration.Hydrate(refs, types[0], inlined);
    if first.Done? {
      var hydrated := HydrateAll(refs, rest, inlined + first.defs.Keys, record);
      PutBackStep(fields, first.tree, first.defs, hydrated);
      assert HydrateAll(refs, types, inlined, record) == Resume([first.tree], first.defs, hydrated);
    }
  }

  lemma UntypedFieldWalks(refs: Refs, fields: seq<Value>, inlined: set<string>, record: Value)
    requires fields != [] && !HasType(fields[0]) && WalksTypes(refs, fields[1..], inlined, record)
    ensures WalksTypes(refs, fields, inlined, record)
  {
    PutBackSkip(fields, HydrateAll(refs, FieldTypes(fields), inlined, record));
    assert inlined + FieldHydration(refs, fields[0], inlined).defs.Keys == inlined;
  }

  lemma {:induction false} WalkFieldsIs(refs: Refs, fields: seq<Value>, inlined: set<string>, record: Value)
    requires forall c :: c in FieldTypes(fields) ==> c < record
    ensures WalkFields(refs, fields, inlined) == PutBack(fields, HydrateAll(refs, FieldTypes(fields), inlined, record))
  {
    if fields != [] {
      if HasType(fields[0]) {
        assert FieldTypes(fields)[0] == fields[0].entries["type"];
        assert forall c :: c in FieldTypes(fields[1..]) ==> c in FieldTypes(fields);
        var first := AvroHydration.Hydrate(refs, fields[0].entries["type"], inlined);
        if first.Done? {
          WalkFieldsIs(refs, fields[1..], inlined + first.defs.Keys, record);
        }
        TypedFieldWalks(refs, fields, inlined, record);
      } else {
        WalkFieldsIs(refs, fields[1..], inlined, record);
        UntypedFieldWalks(refs, fields, inlined, record);
      }
    }
  }

  /** The first i fields are overwritten, the others are as they were. */
  ghost predicate Overwritten(fields: seq<Value>, original: seq<Value>, trees: seq<Value>, i: nat) {
    && |fields| == |original| && |trees| == i <= |fields|
    && (forall j :: 0 <= j < i ==> fields[j] == trees[j])
    && (forall j :: i <= j < |fields| ==> fields[j] == original[j])
  }

  class Hydrator {
    const refs: Refs
    var inlined: set<string>

    constructor (refs: Refs)
      ensures this.refs == refs && inlined == {}
    {
      this.refs := refs;
      inlined := {};
    }

    /** Hydrates one type position; None stands for the error of a malformed reference. */
    method Hydrate(node: Value) returns (r: Option<Value>)
      modifies this
      ensures var spec := AvroHydration.Hydrate(refs, node, old(inlined));
              && (r.None? <==> spec.Failed?)
              && (r.Some? ==> r.value == spec.tree && inlined == old(inlined) + spec.defs.Keys)
      decreases refs.Keys - inlined, node
    {
      if node.Str? {
        if node.s in inlined || node.s !in refs {
          return Some(node);
        }
        inlined := inlined + {node.s};
        if refs[node.s].None? {
          return None;
        }
        r := Hydrate(refs[node.s].value);
      } else if node.Arr? {
        r := HydrateBranches(node);
      } else if HasFields(node) {
        assert Children(node) == FieldTypes(node.entries["fields"].elems);
        WalkFieldsIs(refs, node.entries["fields"].elems, inlined, node);
        var fields := HydrateFields(node.entries["fields"].elems, node);
        r := if fields.Some? then Some(Obj(node.entries["fields" := Arr(fields.value)])) else None;
      } else if HasElement(node) {
        var key := ElementKey(node);
        ResumeStep(refs, Children(node), inlined, node, [], map[]);
        var h := Hydrate(node.entries[key]);
        r := if h.Some? then Some(Obj(node.entries[key := h.value])) else None;
      } else {
        r := Some(node);
      }
    }

    method HydrateBranches(node: Value) returns (r: Option<Value>)
      requires node.Arr?
      modifies this
      ensures var spec := AvroHydration.Hydrate(refs, node, old(inlined));
              && (r.None? <==> spec.Failed?)
              && (r.Some? ==> r.value == spec.tree && inlined == old(inlined) + spec.defs.Keys)
      decreases refs.Keys - inlined, node, 0
    {
      var v := node.elems;
      ghost var trees: seq<Value>, defs: map<string, Value> := [], map[];
      ghost var spec := HydrateAll(refs, node.elems, inlined, node);
      for i := 0 to |v|
        invariant |v| == |node.elems| && |trees| == i
        invariant forall j :: 0 <= j < i ==> v[j] == trees[j]
        invariant forall j :: i <= j < |v| ==> v[j] == node.elems[j]
        invariant inlined == old(inlined) + defs.Keys
        invariant spec == Resume(trees, defs, HydrateAll(refs, node.elems[i..], inlined, node))
      {
        assert v[i] == node.elems[i..][0] && node.elems[i..][1..] == node.elems[i + 1..];
        ResumeStep(refs, node.elems[i..], inlined, node, trees, defs);
        ghost var first := AvroHydration.Hydrate(refs, v[i], inlined);
        var h := Hydrate(v[i]);
        if h.None? {
          return None;
        }
        trees, defs := trees + [h.value], defs + first.defs;
        v := v[i := h.value];
      }
      assert v == trees + [] && defs == defs + map[];
      r := Some(Arr(v));
    }

    method HydrateField(f: Value, ghost record: Value) returns (r: Option<Value>)
      requires HasType(f) ==> f.entries["type"] < record
      modifies this
      ensures var spec := FieldHydration(refs, f, old(inlined));
              && (r.None? <==> spec.Failed?)
              && (r.Some? ==> r.value == spec.tree && inlined == old(inlined) + spec.defs.Keys)
      decreases refs.Keys - inlined, record, 0
    {
      r := Some(f);
      if HasType(f) {
        var h := Hydrate(f.entries["type"]);
        r := if h.Some? then Some(Obj(f.entries["type" := h.value])) else None;
      }
    }

    /** Overwrites the types of a record's fields; fields without a type stay as they are. */
    method HydrateFields(original: seq<Value>, ghost record: Value) returns (r: Option<seq<Value>>)
      requires forall j :: 0 <= j < |original| && HasType(original[j]) ==> original[j].entries["type"] < record
      modifies this
      ensures var spec := WalkFields(refs, original, old(inlined));
              && (r.None? <==> spec.OneFailed?)
              && (r.Some? ==> r.value == spec.trees && inlined == old(inlined) + spec.defs.Keys)
      decreases refs.Keys - inlined, record, 1
    {
      var fields := original;
      ghost var trees: seq<Value>, defs: map<string, Value>, rest := [], map[], original;
      ghost var spec := WalkFields(refs, original, inlined);
      for i := 0 to |fields|
        invariant Overwritten(fields, original, trees, i) && rest == original[i..]
        invariant inlined == old(inlined) + defs.Keys
        invariant spec == Resume(trees, defs, WalkFields(refs, rest, inlined))
      {
        WalkFieldsStep(refs, rest, inlined, trees, defs);
        ghost var first := FieldHydration(refs, rest[0], inlined);
        var f := HydrateField(fields[i], record);
        if f.None? {
          return None;
        }
        fields := fields[i := f.value];
        trees, defs, rest := trees + [f.value], defs + first.defs, rest[1..];
      }
      assert fields == trees + [] && defs == defs + map[];
      r := Some(fields);
    }
  }
}
