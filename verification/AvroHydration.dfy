/**
 * Inlining of schema-registry references into an Avro schema document.
 *
 * A schema is a JSON tree. Only its type positions are walked: union branches,
 * record field types, array items and map values. A string at a type position
 * that names a reference is replaced by the reference's definition the first
 * time it is met, and left alone afterwards.
 */
module AvroHydration {
  import opened Json

  /** Reference name to parsed definition; None stands for malformed JSON. */
  type Refs = map<string, Option<Value>>

  // ----- the type positions of one node

  predicate IsRecord(v: Value) {
    v.StrAt("type") == "record" || v.StrAt("type") == "error"
  }

  predicate HasFields(v: Value) {
    IsRecord(v) && "fields" in v.entries && v.entries["fields"].Arr?
  }

  /** The key of an object's only type position, for arrays and maps. */
  function ElementKey(v: Value): string {
    if v.StrAt("type") == "array" then "items" else "values"
  }

  predicate HasElement(v: Value) {
    (v.StrAt("type") == "array" || v.StrAt("type") == "map") && ElementKey(v) in v.entries
  }

  /** A record field whose type is walked. */
  predicate HasType(f: Value) {
    f.Obj? && "type" in f.entries
  }

  function FieldTypes(fields: seq<Value>): seq<Value> {
    if fields == [] then []
    else
      var rest := FieldTypes(fields[1..]);
      if HasType(fields[0]) then [fields[0].entries["type"]] + rest else rest
  }

  lemma {:induction false} FieldTypeSmaller(fields: seq<Value>, c: Value, whole: Value)
    requires c in FieldTypes(fields)
    requires forall j :: 0 <= j < |fields| ==> fields[j] < whole
    ensures c < whole
  {
    if !HasType(fields[0]) || c != fields[0].entries["type"] {
      FieldTypeSmaller(fields[1..], c, whole);
    }
  }

  function PlugFields(fields: seq<Value>, types: seq<Value>): (r: seq<Value>)
    requires |types| == |FieldTypes(fields)|
    ensures |r| == |fields|
  {
    if fields == [] then []
    else if HasType(fields[0]) then
      [Obj(fields[0].entries["type" := types[0]])] + PlugFields(fields[1..], types[1..])
    else
      [fields[0]] + PlugFields(fields[1..], types)
  }

  /** The contents of the type positions of a node, in document order. */
  function Children(v: Value): (r: seq<Value>)
    ensures forall c :: c in r ==> c < v
  {
    if v.Arr? then v.elems
    else if HasFields(v) then
      var types := FieldTypes(v.entries["fields"].elems);
      assert forall c :: c in types ==> c < v by {
        forall c | c in types ensures c < v {
          FieldTypeSmaller(v.entries["fields"].elems, c, v);
        }
      }
      types
    else if HasElement(v) then [v.entries[ElementKey(v)]]
    else []
  }

  /** The node with new contents at its type positions and nothing else changed. */
  function Plug(v: Value, children: seq<Value>): Value
    requires |children| == |Children(v)|
  {
    if v.Arr? then Arr(children)
    else if HasFields(v) then Obj(v.entries["fields" := Arr(PlugFields(v.entries["fields"].elems, children))])
    else if HasElement(v) then Obj(v.entries[ElementKey(v) := children[0]])
    else v
  }

  /** Everything of a node except the contents of its type positions. */
  function Frame(v: Value): Value {
    Plug(v, seq(|Children(v)|, i => Null))
  }

  lemma {:induction false} FieldLens(fields: seq<Value>, types: seq<Value>, blanks: seq<Value>)
    requires |types| == |FieldTypes(fields)| == |blanks|
    ensures FieldTypes(PlugFields(fields, types)) == types
    ensures PlugFields(PlugFields(fields, types), blanks) == PlugFields(fields, blanks)
    ensures PlugFields(fields, FieldTypes(fields)) == fields
  {
    if fields != [] {
      var plugged := PlugFields(fields, types);
      if HasType(fields[0]) {
        FieldLens(fields[1..], types[1..], blanks[1..]);
        assert plugged[1..] == PlugFields(fields[1..], types[1..]);
        assert FieldTypes(plugged)[1..] == types[1..];
        assert FieldTypes(fields)[1..] == FieldTypes(fields[1..]);
        assert fields[0].entries["type" := fields[0].entries["type"]] == fields[0].entries;
        assert plugged[0].entries["type" := blanks[0]] == fields[0].entries["type" := blanks[0]];
      } else {
        FieldLens(fields[1..], types, blanks);
        assert plugged[1..] == PlugFields(fields[1..], types);
      }
    }
  }

  /** Children and Frame take a node apart and Plug puts it together again. */
  lemma NodeLens(v: Value, children: seq<Value>)
    requires |children| == |Children(v)|
    ensures Children(Plug(v, children)) == children
    ensures Frame(Plug(v, children)) == Frame(v)
    ensures Plug(v, Children(v)) == v
  {
    var blanks := seq(|children|, i => Null);
    if v.Arr? {
    } else if HasFields(v) {
      var fields := v.entries["fields"].elems;
      FieldLens(fields, children, blanks);
      assert v.entries["fields" := Arr(fields)] == v.entries;
      var p := Plug(v, children);
      assert p.StrAt("type") == v.StrAt("type");
      assert p.entries["fields" := Arr(PlugFields(fields, blanks))] == v.entries["fields" := Arr(PlugFields(fields, blanks))];
    } else if HasElement(v) {
      var key := ElementKey(v);
      assert v.entries[key := v.entries[key]] == v.entries;
      assert Plug(v, children).StrAt("type") == v.StrAt("type");
    }
  }

  // ----- hydration

  /** defs maps each name expanded by the walk to the tree written in its place. */
  datatype Hydration = Done(tree: Value, defs: map<string, Value>) | Failed
  datatype Hydrations = AllDone(trees: seq<Value>, defs: map<string, Value>) | OneFailed

  /** The hydrated form of a type position, the names in inlined being expanded already. */
  function Hydrate(refs: Refs, node: Value, inlined: set<string>): (r: Hydration)
    ensures r.Done? ==> r.defs.Keys !! inlined && r.defs.Keys <= refs.Keys
    decreases refs.Keys - inlined, node, 1
  {
    if node.Str? then
      if node.s in inlined || node.s !in refs then Done(node, map[])
      else if refs[node.s].None? then Failed
      else
        var r := Hydrate(refs, refs[node.s].value, inlined + {node.s});
        if r.Done? then Done(r.tree, r.defs[node.s := r.tree]) else Failed
    else
      var r := HydrateAll(refs, Children(node), inlined, node);
      if r.AllDone? then Done(Plug(node, r.trees), r.defs) else Failed
  }

  /** Hydrates positions from left to right; all of them are parts of whole. */
  function HydrateAll(refs: Refs, nodes: seq<Value>, inlined: set<string>, whole: Value): (r: Hydrations)
    requires forall c :: c in nodes ==> c < whole
    ensures r.AllDone? ==> |r.trees| == |nodes| && r.defs.Keys !! inlined && r.defs.Keys <= refs.Keys
    decreases refs.Keys - inlined, whole, 0, |nodes|
  {
    if nodes == [] then AllDone([], map[])
    else
      assert nodes[0] in nodes;
      var first := Hydrate(refs, nodes[0], inlined);
      if first.Failed? then OneFailed
      else
        assert forall c :: c in nodes[1..] ==> c in nodes;
        var rest := HydrateAll(refs, nodes[1..], inlined + first.defs.Keys, whole);
        if rest.OneFailed? then OneFailed
        else AllDone([first.tree] + rest.trees, first.defs + rest.defs)
  }
}
