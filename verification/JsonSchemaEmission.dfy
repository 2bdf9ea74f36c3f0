/** Compilation of a common schema to a JSON Schema. */
module JsonSchemaEmission {
  import opened Json
  import opened CommonSchema
  import opened References
  import Decimal
  import DecimalPattern

  function StrNode(): Node { map["type" := Str("string")] }

  function DecimalNode(p: Decimal.Params): Node {
    StrNode()["pattern" := Str(DecimalPattern.PatternText(p))]
  }

  /** The schema node of a common schema, None when it cannot be expressed. */
  function Emit(c: Common): Option<Node>
    decreases c, 1
  {
    match c.typ
    case Object => ObjectNode(c.children, EmitProperties(c.children))
    case Int32 => Some(map["type" := Str("integer")])
    case Int64 => Some(map["type" := Str("integer")])
    case Float32 => Some(map["type" := Str("number")])
    case Float64 => Some(map["type" := Str("number")])
    case Boolean => Some(map["type" := Str("boolean")])
    case String => Some(StrNode())
    case ByteArray => Some(StrNode()["contentEncoding" := Str("base64")])
    case Null => Some(map["type" := Str("null")])
    case Array =>
      if c.children == [] then None
      else
        var items := Emit(c.children[0]);
        if items.None? then None else Some(map["type" := Str("array"), "items" := Obj(items.value)])
    case Map =>
      if c.children == [] then None
      else
        var values := Emit(c.children[0]);
        if values.None? then None else Some(map["type" := Str("object"), "additionalProperties" := Obj(values.value)])
    case Union =>
      var branches := EmitBranches(c.children);
      if branches.None? then None else Some(map["oneOf" := Arr(branches.value)])
    case Timestamp => Some(StrNode()["format" := Str("date-time")])
    case Date => Some(StrNode()["format" := Str("date")])
    case TimeOfDay => Some(StrNode()["format" := Str("time")])
    case UUID => Some(StrNode()["format" := Str("uuid")])
    case Decimal =>
      if c.DecimalParams().None? then None else Some(DecimalNode(c.DecimalParams().value))
    case BigDecimal => Some(StrNode()["pattern" := Str("^-?(0|[1-9][0-9]*)(\\.[0-9]+)?$")])
    case Any => Some(map[])
    case Unknown => None
  }

  /** The property schemas; of children with the same name the last one counts. */
  function EmitProperties(children: seq<Common>): Option<Node>
    decreases children, 0
  {
    if children == [] then Some(map[])
    else
      var last := children[|children| - 1];
      var init, node := EmitProperties(children[..|children| - 1]), Emit(last);
      if init.None? || node.None? then None else Some(init.value[last.name := Obj(node.value)])
  }

  function Required(children: seq<Common>): seq<Value> {
    if children == [] then []
    else
      var last := children[|children| - 1];
      Required(children[..|children| - 1]) + if last.optional then [] else [Str(last.name)]
  }

  function ObjectNode(children: seq<Common>, properties: Option<Node>): Option<Node> {
    if properties.None? then None
    else
      var m := map["type" := Str("object"), "properties" := Obj(properties.value)];
      Some(if Required(children) == [] then m else m["required" := Arr(Required(children))])
  }

  function EmitBranches(children: seq<Common>): Option<seq<Value>>
    decreases children, 0
  {
    if children == [] then Some([])
    else
      var init, node := EmitBranches(children[..|children| - 1]), Emit(children[|children| - 1]);
      if init.None? || node.None? then None else Some(init.value + [Obj(node.value)])
  }

  // ----- as loops

  method EmitNode(c: Common) returns (r: Option<Node>)
    ensures r == Emit(c)
    decreases c, 1
  {
    match c.typ
    case Object => r := EmitObject(c);
    case Array =>
      if c.children == [] {
        return None;
      }
      var items := EmitNode(c.children[0]);
      r := if items.None? then None else Some(map["type" := Str("array"), "items" := Obj(items.value)]);
    case Map =>
      if c.children == [] {
        return None;
      }
      var values := EmitNode(c.children[0]);
      r := if values.None? then None else Some(map["type" := Str("object"), "additionalProperties" := Obj(values.value)]);
    case Union => r := EmitUnion(c);
    case Decimal => r := if c.DecimalParams().None? then None else Some(DecimalNode(c.DecimalParams().value));
    case Unknown => r := None;
    case Int32 => r := Some(map["type" := Str("integer")]);
    case Int64 => r := Some(map["type" := Str("integer")]);
    case Float32 => r := Some(map["type" := Str("number")]);
    case Float64 => r := Some(map["type" := Str("number")]);
    case Boolean => r := Some(map["type" := Str("boolean")]);
    case String => r := Some(StrNode());
    case ByteArray => r := Some(StrNode()["contentEncoding" := Str("base64")]);
    case Null => r := Some(map["type" := Str("null")]);
    case Timestamp => r := Some(StrNode()["format" := Str("date-time")]);
    case Date => r := Some(StrNode()["format" := Str("date")]);
    case TimeOfDay => r := Some(StrNode()["format" := Str("time")]);
    case UUID => r := Some(StrNode()["format" := Str("uuid")]);
    case BigDecimal => r := Some(StrNode()["pattern" := Str("^-?(0|[1-9][0-9]*)(\\.[0-9]+)?$")]);
    case Any => r := Some(map[]);
  }

  method EmitObject(c: Common) returns (r: Option<Node>)
    ensures r == ObjectNode(c.children, EmitProperties(c.children))
    decreases c, 0
  {
    var properties: Node := map[];
    var required: seq<Value> := [];
    for i := 0 to |c.children|
      invariant EmitProperties(c.children[..i]) == Some(properties) && required == Required(c.children[..i])
    {
      var child := c.children[i];
      PrefixStep(c.children, i);
      var node := EmitNode(child);
      if node.None? {
        PrefixFails(c.children, i + 1);
        return None;
      }
      properties := properties[child.name := Obj(node.value)];
      if !child.optional {
        required := required + [Str(child.name)];
      }
    }
    assert c.children[..|c.children|] == c.children;
    var m := map["type" := Str("object"), "properties" := Obj(properties)];
    if |required| > 0 {
      m := m["required" := Arr(required)];
    }
    r := Some(m);
  }

  method EmitUnion(c: Common) returns (r: Option<Node>)
    ensures var branches := EmitBranches(c.children);
            r == if branches.None? then None else Some(map["oneOf" := Arr(branches.value)])
    decreases c, 0
  {
    var oneOf: seq<Value> := [];
    for i := 0 to |c.children|
      invariant EmitBranches(c.children[..i]) == Some(oneOf)
    {
      PrefixStep(c.children, i);
      var node := EmitNode(c.children[i]);
      if node.None? {
        PrefixFails(c.children, i + 1);
        return None;
      }
      oneOf := oneOf + [Obj(node.value)];
    }
    assert c.children[..|c.children|] == c.children;
    r := Some(map["oneOf" := Arr(oneOf)]);
  }

  /** Once a child cannot be expressed, neither can a longer list. */
  lemma {:induction false} PrefixFails(children: seq<Common>, i: nat)
    requires i <= |children|
    ensures EmitProperties(children[..i]).None? ==> EmitProperties(children).None?
    ensures EmitBranches(children[..i]).None? ==> EmitBranches(children).None?
    decreases |children| - i
  {
    if i < |children| {
      PrefixStep(children, i);
      PrefixFails(children, i + 1);
    } else {
      assert children[..i] == children;
    }
  }
}
