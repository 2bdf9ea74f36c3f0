/** Compilation of a common schema to an Avro schema. */
module AvroEmission {
  import opened Json
  import opened CommonSchema
  import Decimal
  import Digits

  function LogicalNode(base: string, logical: string): Value {
    Obj(map["type" := Str(base), "logicalType" := Str(logical)])
  }

  function NumberNode(n: nat): Value {
    Number(NumberText(Digits.Text(n), n as real, true))
  }

  function DecimalNode(p: Decimal.Params): Value {
    Obj(map["type" := Str("bytes"), "logicalType" := Str("decimal"),
            "precision" := NumberNode(p.precision), "scale" := NumberNode(p.scale)])
  }

  /** The logical type name of a timestamp; Avro knows no seconds. */
  function TimestampName(p: TimeParams): Option<string> {
    var unit := match p.unit case Seconds => "" case Millis => "millis" case Micros => "micros" case Nanos => "nanos";
    if unit == "" then None else Some((if p.adjustToUTC then "timestamp-" else "local-timestamp-") + unit)
  }

  function TimestampNode(p: TimeParams): Option<Value> {
    var name := TimestampName(p);
    if name.None? then None else Some(LogicalNode("long", name.value))
  }

  /** Avro times of day count milliseconds or microseconds and carry no zone. */
  function TimeOfDayNode(p: Option<TimeParams>): Option<Value> {
    if p.None? || p.value.adjustToUTC then None
    else
      match p.value.unit
      case Millis => Some(LogicalNode("int", "time-millis"))
      case Micros => Some(LogicalNode("long", "time-micros"))
      case _ => None
  }

  /** The Avro node of a common schema, None when it cannot be expressed. */
  function EmitNode(c: Common, recordName: string, namespace: string, isRoot: bool): Option<Value>
    decreases c, 2
  {
    var inner := EmitInner(c, recordName, namespace, isRoot);
    if inner.None? then None else Some(if c.optional then Arr([Str("null"), inner.value]) else inner.value)
  }

  function EmitInner(c: Common, recordName: string, namespace: string, isRoot: bool): Option<Value>
    decreases c, 1
  {
    match c.typ
    case Null => Some(Str("null"))
    case Boolean => Some(Str("boolean"))
    case Int32 => Some(Str("int"))
    case Int64 => Some(Str("long"))
    case Float32 => Some(Str("float"))
    case Float64 => Some(Str("double"))
    case String => Some(Str("string"))
    case ByteArray => Some(Str("bytes"))
    case Any => Some(Str("bytes"))
    case Timestamp => TimestampNode(c.EffectiveTimestamp())
    case Date => Some(LogicalNode("int", "date"))
    case TimeOfDay => TimeOfDayNode(c.TimeOfDayParams())
    case UUID => Some(LogicalNode("string", "uuid"))
    case Decimal => if c.DecimalParams().None? then None else Some(DecimalNode(c.DecimalParams().value))
    case BigDecimal => None
    case Array => EmitElement(c.children, "array", "items")
    case Map => EmitElement(c.children, "map", "values")
    case Union =>
      var variants := EmitVariants(c.children);
      if variants.None? then None else Some(Arr(variants.value))
    case Object =>
      var fields := EmitFields(c.children);
      if fields.None? then None else Some(RecordNode(c.name, recordName, namespace, isRoot, fields.value))
    case Unknown => None
  }

  function EmitElement(children: seq<Common>, typ: string, key: string): Option<Value>
    decreases children, 0
  {
    if children == [] then None
    else
      var e := EmitNode(children[0], "", "", false);
      if e.None? then None else Some(Obj(map["type" := Str(typ), key := e.value]))
  }

  function FieldNode(child: Common, node: Value): Value {
    var field := map["name" := Str(child.name), "type" := node];
    Obj(if child.optional then field["default" := Value.Null] else field)
  }

  function RecordNode(name: string, recordName: string, namespace: string, isRoot: bool, fields: seq<Value>): Value {
    var m := map["type" := Str("record"), "name" := Str(if name == "" then recordName else name), "fields" := Arr(fields)];
    Obj(if isRoot && namespace != "" then m["namespace" := Str(namespace)] else m)
  }

  function EmitFields(children: seq<Common>): Option<seq<Value>>
    decreases children, 0
  {
    if children == [] then Some([])
    else
      var last := children[|children| - 1];
      var init, node := EmitFields(children[..|children| - 1]), EmitNode(last, last.name, "", false);
      if init.None? || node.None? then None else Some(init.value + [FieldNode(last, node.value)])
  }

  function EmitVariants(children: seq<Common>): Option<seq<Value>>
    decreases children, 0
  {
    if children == [] then Some([])
    else
      var init, node := EmitVariants(children[..|children| - 1]), EmitNode(children[|children| - 1], "", "", false);
      if init.None? || node.None? then None else Some(init.value + [node.value])
  }

  // ----- as loops

  method Emit(c: Common, recordName: string, namespace: string, isRoot: bool) returns (r: Option<Value>)
    ensures r == EmitNode(c, recordName, namespace, isRoot)
    decreases c, 1
  {
    var inner: Option<Value>;
    match c.typ {
      case Object => inner := EmitRecord(c, recordName, namespace, isRoot);
      case Union => inner := EmitUnion(c);
      case Array => inner := EmitOnly(c.children, "array", "items");
      case Map => inner := EmitOnly(c.children, "map", "values");
      case Timestamp => inner := TimestampNode(c.EffectiveTimestamp());
      case TimeOfDay => inner := TimeOfDayNode(c.TimeOfDayParams());
      case Decimal => inner := if c.DecimalParams().None? then None else Some(DecimalNode(c.DecimalParams().value));
      case Null => inner := Some(Str("null"));
      case Boolean => inner := Some(Str("boolean"));
      case Int32 => inner := Some(Str("int"));
      case Int64 => inner := Some(Str("long"));
      case Float32 => inner := Some(Str("float"));
      case Float64 => inner := Some(Str("double"));
      case String => inner := Some(Str("string"));
      case ByteArray => inner := Some(Str("bytes"));
      case Any => inner := Some(Str("bytes"));
      case Date => inner := Some(LogicalNode("int", "date"));
      case UUID => inner := Some(LogicalNode("string", "uuid"));
      case BigDecimal => inner := None;
      case Unknown => inner := None;
    }
    r := if inner.None? then None else Some(if c.optional then Arr([Str("null"), inner.value]) else inner.value);
  }

  method EmitOnly(children: seq<Common>, typ: string, key: string) returns (r: Option<Value>)
    ensures r == EmitElement(children, typ, key)
    decreases children, 0
  {
    if children == [] {
      return None;
    }
    var e := Emit(children[0], "", "", false);
    r := if e.None? then None else Some(Obj(map["type" := Str(typ), key := e.value]));
  }

  method EmitRecord(c: Common, recordName: string, namespace: string, isRoot: bool) returns (r: Option<Value>)
    ensures var fields := EmitFields(c.children);
            r == if fields.None? then None else Some(RecordNode(c.name, recordName, namespace, isRoot, fields.value))
    decreases c, 0
  {
    var fields: seq<Value> := [];
    for i := 0 to |c.children|
      invariant EmitFields(c.children[..i]) == Some(fields)
    {
      PrefixStep(c.children, i);
      var node := Emit(c.children[i], c.children[i].name, "", false);
      if node.None? {
        PrefixFails(c.children, i + 1);
        return None;
      }
      fields := fields + [FieldNode(c.children[i], node.value)];
    }
    assert c.children[..|c.children|] == c.children;
    r := Some(RecordNode(c.name, recordName, namespace, isRoot, fields));
  }

  method EmitUnion(c: Common) returns (r: Option<Value>)
    ensures var variants := EmitVariants(c.children);
            r == if variants.None? then None else Some(Arr(variants.value))
    decreases c, 0
  {
    var variants: seq<Value> := [];
    for i := 0 to |c.children|
      invariant EmitVariants(c.children[..i]) == Some(variants)
    {
      PrefixStep(c.children, i);
      var node := Emit(c.children[i], "", "", false);
      if node.None? {
        PrefixFails(c.children, i + 1);
        return None;
      }
      variants := variants + [node.value];
    }
    assert c.children[..|c.children|] == c.children;
    r := Some(Arr(variants));
  }

  lemma {:induction false} PrefixFails(children: seq<Common>, i: nat)
    requires i <= |children|
    ensures EmitFields(children[..i]).None? ==> EmitFields(children).None?
    ensures EmitVariants(children[..i]).None? ==> EmitVariants(children).None?
    decreases |children| - i
  {
    if i < |children| {
      PrefixStep(children, i);
      PrefixFails(children, i + 1);
    } else {
      assert children[..i] == children;
    }
  }
}
