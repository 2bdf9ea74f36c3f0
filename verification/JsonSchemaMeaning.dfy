/** What an emitted JSON Schema says, keyword by keyword. */
module JsonSchemaMeaning {
  import opened Json
  import opened CommonSchema
  import opened References
  import opened JsonSchemaEmission
  import opened Selections
  import DecimalPattern

  function NotOptional(): Common -> bool {
    (c: Common) => !c.optional
  }

  /** The list names the children that are not optional, in order, one entry for each. */
  ghost predicate ListsAt(children: seq<Common>, required: seq<Value>, ix: seq<nat>) {
    && Selects(children, NotOptional(), ix) && |ix| == |required|
    && forall j :: 0 <= j < |ix| ==> required[j] == Str(children[ix[j]].name)
  }

  ghost predicate Lists(children: seq<Common>, required: seq<Value>) {
    exists ix :: ListsAt(children, required, ix)
  }

  /** A required list is there exactly when some child is not optional. */
  ghost predicate SaysRequired(children: seq<Common>, node: Node) {
    && ("required" in node <==> exists i :: 0 <= i < |children| && !children[i].optional)
    && ("required" in node ==> node["required"].Arr? && Lists(children, node["required"].elems))
  }

  ghost predicate IsText(node: Node, key: string, text: string) {
    node == map["type" := Str("string"), key := Str(text)]
  }

  /** The node is the JSON Schema of the common schema. */
  ghost predicate Describes(c: Common, node: Node)
    decreases c, 1
  {
    match c.typ
    case Null => node == map["type" := Str("null")]
    case Boolean => node == map["type" := Str("boolean")]
    case Int32 => node == map["type" := Str("integer")]
    case Int64 => node == map["type" := Str("integer")]
    case Float32 => node == map["type" := Str("number")]
    case Float64 => node == map["type" := Str("number")]
    case String => node == map["type" := Str("string")]
    case ByteArray => IsText(node, "contentEncoding", "base64")
    case Timestamp => IsText(node, "format", "date-time")
    case Date => IsText(node, "format", "date")
    case TimeOfDay => IsText(node, "format", "time")
    case UUID => IsText(node, "format", "uuid")
    case Decimal => c.DecimalParams().Some? && IsText(node, "pattern", DecimalPattern.PatternText(c.DecimalParams().value))
    case BigDecimal => IsText(node, "pattern", "^-?(0|[1-9][0-9]*)(\\.[0-9]+)?$")
    case Any => node == map[]
    case Array => c.children != [] && DescribesElement(c.children[0], node, "array", "items")
    case Map => c.children != [] && DescribesElement(c.children[0], node, "object", "additionalProperties")
    case Union =>
      && node.Keys == {"oneOf"} && node["oneOf"].Arr? && |node["oneOf"].elems| == |c.children|
      && forall i :: 0 <= i < |c.children| ==> DescribesValue(c.children[i], node["oneOf"].elems[i])
    case Object => DescribesObject(c.children, node)
    case Unknown => false
  }

  ghost predicate DescribesObject(children: seq<Common>, node: Node)
    decreases children, 1
  {
    && node.Keys <= {"type", "properties", "required"}
    && "type" in node && node["type"] == Str("object")
    && "properties" in node && node["properties"].Obj? && DescribesProperties(children, node["properties"].entries)
    && SaysRequired(children, node)
  }

  ghost predicate DescribesValue(c: Common, v: Value)
    decreases c, 2
  {
    v.Obj? && Describes(c, v.entries)
  }

  ghost predicate DescribesElement(c: Common, node: Node, typ: string, key: string)
    decreases c, 3
  {
    key != "type" && node.Keys == {"type", key} && node["type"] == Str(typ) && DescribesValue(c, node[key])
  }

  /** One property for each name, described by the last child that has it. */
  ghost predicate DescribesProperties(children: seq<Common>, props: Node)
    decreases children, 0
  {
    && (forall k :: k in props <==> exists i :: 0 <= i < |children| && children[i].name == k)
    && (forall i: nat :: i < |children| && LastNamed(children, children[i].name, i) ==> DescribesValue(children[i], props[children[i].name]))
  }

  // ----- the required list

  lemma ListsOneMore(children: seq<Common>, last: Common, required: seq<Value>, more: seq<Value>)
    requires Lists(children, required)
    requires more == if last.optional then required else required + [Str(last.name)]
    ensures Lists(children + [last], more)
  {
    var ix :| ListsAt(children, required, ix);
    var all := children + [last];
    var jx := SelectsOneMore(children, last, NotOptional(), ix);
    assert |jx| == |more|;
    forall j | 0 <= j < |jx| ensures more[j] == Str(all[jx[j]].name) {
      if j < |ix| {
        assert jx[j] == ix[j] && all[ix[j]] == children[ix[j]] && more[j] == required[j];
      }
    }
    assert ListsAt(all, more, jx);
  }

  lemma ListsNone()
    ensures Lists([], [])
  {
    assert ListsAt([], [], []);
  }

  lemma RequiredStep(children: seq<Common>) returns (init: seq<Common>, last: Common)
    requires children != []
    ensures children == init + [last] && |init| < |children|
    ensures Required(children) == if last.optional then Required(init) else Required(init) + [Str(last.name)]
  {
    init, last := children[..|children| - 1], children[|children| - 1];
  }

  lemma {:induction false} RequiredLists(children: seq<Common>)
    ensures Lists(children, Required(children))
    decreases |children|
  {
    if children == [] {
      ListsNone();
    } else {
      var init, last := RequiredStep(children);
      RequiredLists(init);
      ListsOneMore(init, last, Required(init), Required(children));
    }
  }

  lemma RequiredIff(children: seq<Common>)
    ensures Lists(children, Required(children))
    ensures Required(children) != [] <==> exists i :: 0 <= i < |children| && !children[i].optional
  {
    RequiredLists(children);
    var ix :| ListsAt(children, Required(children), ix);
    if Required(children) != [] {
      assert !children[ix[0]].optional;
    }
  }

  // ----- emission

  lemma {:induction false} PropertiesDescribed(children: seq<Common>)
    requires EmitProperties(children).Some?
    ensures DescribesProperties(children, EmitProperties(children).value)
    decreases children, 0
  {
    if children != [] {
      var n := |children| - 1;
      var init, last := children[..n], children[n];
      PropertiesDescribed(init);
      EmittedDescribes(last);
      PropertiesOneMore(children, EmitProperties(init).value, Obj(Emit(last).value));
    }
  }

  lemma PropertiesOneMore(children: seq<Common>, before: Node, v: Value)
    requires children != [] && DescribesProperties(children[..|children| - 1], before)
    requires DescribesValue(children[|children| - 1], v)
    ensures DescribesProperties(children, before[children[|children| - 1].name := v])
  {
    var n := |children| - 1;
    var init, last := children[..n], children[n];
    var props := before[last.name := v];
    forall k ensures k in props <==> exists i :: 0 <= i < |children| && children[i].name == k {
      if k in before {
        var i :| 0 <= i < |init| && init[i].name == k;
        assert children[i].name == k;
      }
      if i :| 0 <= i < |children| && children[i].name == k {
        assert i < n ==> init[i].name == k;
      }
    }
    forall i: nat | i < |children| && LastNamed(children, children[i].name, i)
      ensures DescribesValue(children[i], props[children[i].name])
    {
      if i < n {
        assert children[n].name != children[i].name && LastNamed(init, init[i].name, i);
      }
    }
  }

  lemma {:induction false} BranchesDescribed(children: seq<Common>)
    requires EmitBranches(children).Some?
    ensures |EmitBranches(children).value| == |children|
    ensures forall i :: 0 <= i < |children| ==> DescribesValue(children[i], EmitBranches(children).value[i])
    decreases children, 0
  {
    if children != [] {
      var init, last := children[..|children| - 1], children[|children| - 1];
      BranchesDescribed(init);
      EmittedDescribes(last);
      forall i | 0 <= i < |children| ensures DescribesValue(children[i], EmitBranches(children).value[i]) {
        assert i < |init| ==> init[i] == children[i];
      }
    }
  }

  /** Whatever is emitted says exactly what the common schema says. */
  lemma {:induction false} EmittedDescribes(c: Common)
    requires Emit(c).Some?
    ensures Describes(c, Emit(c).value)
    decreases c, 1
  {
    match c.typ
    case Array => EmittedDescribes(c.children[0]);
    case Map => EmittedDescribes(c.children[0]);
    case Union => BranchesDescribed(c.children);
    case Object =>
      PropertiesDescribed(c.children);
      ObjectDescribed(c);
    case _ => LeafDescribed(c);
  }

  predicate IsLeaf(c: Common) {
    c.typ != Array && c.typ != Map && c.typ != Object && c.typ != Union
  }

  lemma LeafDescribed(c: Common)
    requires Emit(c).Some? && IsLeaf(c)
    ensures Describes(c, Emit(c).value)
  {
    assert StrNode()["contentEncoding" := Str("base64")] == map["type" := Str("string"), "contentEncoding" := Str("base64")];
    assert forall format :: StrNode()["format" := Str(format)] == map["type" := Str("string"), "format" := Str(format)];
    assert forall pattern :: StrNode()["pattern" := Str(pattern)] == map["type" := Str("string"), "pattern" := Str(pattern)];
  }

  lemma RequiredSaid(children: seq<Common>, node: Node)
    requires "required" in node <==> Required(children) != []
    requires "required" in node ==> node["required"] == Arr(Required(children))
    ensures SaysRequired(children, node)
  {
    RequiredIff(children);
  }

  lemma ObjectNodeIs(children: seq<Common>, properties: Node)
    ensures var node := ObjectNode(children, Some(properties)).value;
            && node.Keys == {"type", "properties"} + (if Required(children) == [] then {} else {"required"})
            && node["type"] == Str("object") && node["properties"] == Obj(properties)
            && (Required(children) != [] ==> node["required"] == Arr(Required(children)))
  {
  }

  lemma ObjectSaid(children: seq<Common>, properties: Node)
    requires DescribesProperties(children, properties)
    ensures DescribesObject(children, ObjectNode(children, Some(properties)).value)
  {
    ObjectNodeIs(children, properties);
    RequiredSaid(children, ObjectNode(children, Some(properties)).value);
  }

  lemma ObjectDescribed(c: Common)
    requires c.typ == Object && EmitProperties(c.children).Some? && DescribesProperties(c.children, EmitProperties(c.children).value)
    ensures Emit(c).Some? && Describes(c, Emit(c).value)
  {
    ObjectSaid(c.children, EmitProperties(c.children).value);
  }
}
