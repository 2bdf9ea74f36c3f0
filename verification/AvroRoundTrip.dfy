/** What an emitted Avro schema says can be read back, and its unions are legal. */
module AvroRoundTrip {
  import opened Json
  import opened CommonSchema
  import opened AvroEmission
  import Decimal
  import Digits

  // ----- a reader of Avro schemas

  function Leaf(typ: CommonType, logical: Option<Logical>): Common {
    Common(typ, "", false, logical, [])
  }

  function ReadPrimitive(s: string): Option<Common> {
    match s
    case "null" => Some(Leaf(CommonType.Null, None))
    case "boolean" => Some(Leaf(Boolean, None))
    case "int" => Some(Leaf(Int32, None))
    case "long" => Some(Leaf(Int64, None))
    case "float" => Some(Leaf(Float32, None))
    case "double" => Some(Leaf(Float64, None))
    case "string" => Some(Leaf(String, None))
    case "bytes" => Some(Leaf(ByteArray, None))
    case _ => None
  }

  function TimestampLeaf(unit: TimeUnit, adjustToUTC: bool): Common {
    Leaf(Timestamp, Some(Logical(None, Some(TimeParams(unit, adjustToUTC)), None)))
  }

  function TimeOfDayLeaf(unit: TimeUnit): Common {
    Leaf(TimeOfDay, Some(Logical(None, None, Some(TimeParams(unit, false)))))
  }

  function ReadNumber(m: map<string, Value>, k: string): Option<nat> {
    if k in m && m[k].Number? && m[k].n.value.Floor >= 0 then Some(m[k].n.value.Floor) else None
  }

  function ReadDecimal(m: map<string, Value>): Option<Common> {
    var p, s := ReadNumber(m, "precision"), ReadNumber(m, "scale");
    if p.None? || s.None? then None
    else Some(Leaf(CommonType.Decimal, Some(Logical(Some(Decimal.Params(p.value, s.value)), None, None))))
  }

  function ReadLogical(logical: string, m: map<string, Value>): Option<Common> {
    match logical
    case "date" => Some(Leaf(Date, None))
    case "uuid" => Some(Leaf(UUID, None))
    case "time-millis" => Some(TimeOfDayLeaf(Millis))
    case "time-micros" => Some(TimeOfDayLeaf(Micros))
    case "timestamp-millis" => Some(TimestampLeaf(Millis, true))
    case "timestamp-micros" => Some(TimestampLeaf(Micros, true))
    case "timestamp-nanos" => Some(TimestampLeaf(Nanos, true))
    case "local-timestamp-millis" => Some(TimestampLeaf(Millis, false))
    case "local-timestamp-micros" => Some(TimestampLeaf(Micros, false))
    case "local-timestamp-nanos" => Some(TimestampLeaf(Nanos, false))
    case "decimal" => ReadDecimal(m)
    case _ => None
  }

  /** A union of null and one other branch reads as an optional type. */
  predicate IsOptional(xs: seq<Value>) {
    |xs| == 2 && xs[0] == Str("null")
  }

  function Read(v: Value): Option<Common>
    decreases v, 1
  {
    match v
    case Str(s) => ReadPrimitive(s)
    case Arr(xs) =>
      if IsOptional(xs) then
        var inner := Read(xs[1]);
        if inner.None? then None else Some(inner.value.(optional := true))
      else
        var children := ReadAll(xs);
        if children.None? then None else Some(Common(Union, "", false, None, children.value))
    case Obj(m) =>
      var typ := v.StrAt("type");
      if "logicalType" in m then ReadLogical(v.StrAt("logicalType"), m)
      else if typ == "record" then
        if "fields" !in m || !m["fields"].Arr? then None
        else
          var fields := ReadFields(m["fields"].elems);
          if fields.None? then None else Some(Common(Object, v.StrAt("name"), false, None, fields.value))
      else if typ == "array" then
        var e := if "items" in m then Read(m["items"]) else None;
        if e.None? then None else Some(Common(Array, "", false, None, [e.value]))
      else if typ == "map" then
        var e := if "values" in m then Read(m["values"]) else None;
        if e.None? then None else Some(Common(Map, "", false, None, [e.value]))
      else None
    case _ => None
  }

  function ReadAll(xs: seq<Value>): Option<seq<Common>>
    decreases xs, 0
  {
    if xs == [] then Some([])
    else
      var init, last := ReadAll(xs[..|xs| - 1]), Read(xs[|xs| - 1]);
      if init.None? || last.None? then None else Some(init.value + [last.value])
  }

  function ReadFields(xs: seq<Value>): Option<seq<Common>>
    decreases xs, 0
  {
    if xs == [] then Some([])
    else
      var f := xs[|xs| - 1];
      var init := ReadFields(xs[..|xs| - 1]);
      if init.None? || !f.Obj? || "type" !in f.entries then None
      else
        var c := Read(f.entries["type"]);
        if c.None? then None else Some(init.value + [c.value.(name := f.StrAt("name"))])
  }

  // ----- what emission keeps

  /**
   * The schema as Avro can tell it: anything untyped is bytes, timestamps state
   * their parameters, only the parameters of the type itself are kept, and only
   * records and fields have names.
   */
  function Told(c: Common, recordName: string): Common
    decreases c, 1
  {
    var name := if c.typ == Object then (if c.name == "" then recordName else c.name) else "";
    match c.typ
    case Object => Common(Object, name, c.optional, None, ToldFields(c.children))
    case Array => Common(Array, name, c.optional, None, if c.children == [] then [] else [Told(c.children[0], "")])
    case Map => Common(Map, name, c.optional, None, if c.children == [] then [] else [Told(c.children[0], "")])
    case Union => Common(Union, name, c.optional, None, ToldVariants(c.children))
    case Any => Common(ByteArray, name, c.optional, None, [])
    case Timestamp => Common(Timestamp, name, c.optional, Some(Logical(None, Some(c.EffectiveTimestamp()), None)), [])
    case TimeOfDay => Common(TimeOfDay, name, c.optional, Some(Logical(None, None, c.TimeOfDayParams())), [])
    case Decimal => Common(CommonType.Decimal, name, c.optional, Some(Logical(c.DecimalParams(), None, None)), [])
    case _ => Common(c.typ, name, c.optional, None, [])
  }

  function ToldFields(children: seq<Common>): seq<Common>
    decreases children, 0
  {
    if children == [] then []
    else
      var last := children[|children| - 1];
      ToldFields(children[..|children| - 1]) + [Told(last, last.name).(name := last.name)]
  }

  function ToldVariants(children: seq<Common>): seq<Common>
    decreases children, 0
  {
    if children == [] then []
    else ToldVariants(children[..|children| - 1]) + [Told(children[|children| - 1], "")]
  }

  /** The union of null and one other branch, in this order. */
  predicate NullFirst(c: Common) {
    c.typ == Union && |c.children| == 2 && c.children[0].typ == CommonType.Null && !c.children[0].optional
  }

  /** No emitted part of the schema is a union of null and one other branch. */
  ghost predicate Readable(c: Common)
    decreases c, 0
  {
    match c.typ
    case Union => !NullFirst(c) && AllReadable(c.children)
    case Object => AllReadable(c.children)
    case Array => c.children != [] ==> Readable(c.children[0])
    case Map => c.children != [] ==> Readable(c.children[0])
    case _ => true
  }

  ghost predicate AllReadable(children: seq<Common>)
    decreases children, 1
  {
    children == [] || (AllReadable(children[..|children| - 1]) && Readable(children[|children| - 1]))
  }

  lemma SameEnds<T>(a: seq<T>, x: T, b: seq<T>, y: T)
    ensures a + [x] == b + [y] <==> a == b && x == y
  {
    if a + [x] == b + [y] {
      assert (a + [x])[..|a|] == a && (b + [y])[..|b|] == b;
      assert (a + [x])[|a|] == x && (b + [y])[|b|] == y;
    }
  }

  lemma InnerIsUnion(c: Common, recordName: string, namespace: string, isRoot: bool)
    requires EmitInner(c, recordName, namespace, isRoot).Some?
    ensures EmitInner(c, recordName, namespace, isRoot).value.Arr? <==> c.typ == Union
    ensures EmitInner(c, recordName, namespace, isRoot).value == Str("null") <==> c.typ == CommonType.Null
  {
    assert "long"[0] != "null"[0];
    if c.typ == Array || c.typ == Map {
      var typ, key := if c.typ == Array then "array" else "map", if c.typ == Array then "items" else "values";
      assert EmitElement(c.children, typ, key).value.Obj?;
    }
  }

  lemma EmittedIsUnion(c: Common, recordName: string, namespace: string, isRoot: bool)
    requires EmitNode(c, recordName, namespace, isRoot).Some?
    ensures EmitNode(c, recordName, namespace, isRoot).value.Arr? <==> c.optional || c.typ == Union
    ensures EmitNode(c, recordName, namespace, isRoot).value == Str("null") <==> !c.optional && c.typ == CommonType.Null
  {
    InnerIsUnion(c, recordName, namespace, isRoot);
  }

  lemma VariantsOneMore(children: seq<Common>, c: Common)
    ensures EmitVariants(children + [c]) ==
            var init, node := EmitVariants(children), EmitNode(c, "", "", false);
            if init.None? || node.None? then None else Some(init.value + [node.value])
  {
    assert (children + [c])[..|children|] == children;
  }

  /** The reader never gives a union of null and one other branch. */
  lemma {:induction false} NeverNullFirst(v: Value)
    ensures Read(v).Some? ==> !NullFirst(Read(v).value)
    ensures Read(v).Some? && Read(v).value.typ == CommonType.Null && !Read(v).value.optional ==> v == Str("null")
    ensures Read(v).Some? && Read(v).value.optional ==> v.Arr? && IsOptional(v.elems)
    ensures Read(v).Some? && Read(v).value.typ != Object ==> Read(v).value.name == ""
    decreases v
  {
    if v.Arr? && IsOptional(v.elems) {
      NeverNullFirst(v.elems[1]);
    } else if v.Arr? && ReadAll(v.elems).Some? {
      ReadAllCount(v.elems);
      if |v.elems| == 2 {
        NeverNullFirst(v.elems[0]);
        FirstOfTwo(v.elems);
      }
    }
  }

  lemma FirstOfTwo(xs: seq<Value>)
    requires |xs| == 2 && ReadAll(xs).Some?
    ensures |ReadAll(xs).value| == 2 && Read(xs[0]) == Some(ReadAll(xs).value[0])
  {
    var one := xs[..1];
    assert one[..0] == [] && one[0] == xs[0];
    assert ReadAll(one).Some? && ReadAll(one).value == [] + [Read(xs[0]).value];
  }

  lemma {:induction false} ReadAllCount(xs: seq<Value>)
    requires ReadAll(xs).Some?
    ensures |ReadAll(xs).value| == |xs|
  {
    if xs != [] {
      ReadAllCount(xs[..|xs| - 1]);
    }
  }

  /**
   * Types, nullability, field names and order, and logical parameters can be read
   * back from the emitted schema if and only if no union in it is null and one other
   * branch.
   */
  lemma {:induction false} ReadsBackIff(c: Common, recordName: string, namespace: string, isRoot: bool)
    requires EmitNode(c, recordName, namespace, isRoot).Some?
    ensures Read(EmitNode(c, recordName, namespace, isRoot).value) == Some(Told(c, recordName)) <==> Readable(c)
    decreases c, 3
  {
    InnerReadsBackIff(c, recordName, namespace, isRoot);
    if c.optional {
      OptionalReadsBack(c, recordName, namespace, isRoot);
    }
  }

  lemma OptionalReadsBack(c: Common, recordName: string, namespace: string, isRoot: bool)
    requires c.optional && EmitNode(c, recordName, namespace, isRoot).Some?
    ensures Read(EmitNode(c, recordName, namespace, isRoot).value) == Some(Told(c, recordName)) <==>
            Read(EmitInner(c, recordName, namespace, isRoot).value) == Some(Told(c, recordName).(optional := false))
  {
    var inner := EmitInner(c, recordName, namespace, isRoot).value;
    var whole := Arr([Str("null"), inner]);
    assert Read(whole) == if Read(inner).None? then None else Some(Read(inner).value.(optional := true));
    NeverNullFirst(inner);
    if Read(whole) == Some(Told(c, recordName)) && Read(inner).value.optional {
      InnerIsUnion(c, recordName, namespace, isRoot);
      VariantAt(c.children, 0);
      EmittedIsUnion(c.children[0], "", "", false);
      ToldNullFirst(c, recordName);
      assert false;
    }
  }

  lemma {:induction false} ToldVariantAt(children: seq<Common>, i: nat)
    requires i < |children|
    ensures |ToldVariants(children)| == |children| && ToldVariants(children)[i] == Told(children[i], "")
  {
    var n := |children| - 1;
    if i < n {
      ToldVariantAt(children[..n], i);
    } else if n > 0 {
      ToldVariantAt(children[..n], 0);
    }
  }

  lemma ToldNullFirst(c: Common, recordName: string)
    requires NullFirst(c)
    ensures NullFirst(Told(c, recordName))
  {
    ToldVariantAt(c.children, 0);
  }

  lemma TimestampReadsBack(p: TimeParams)
    requires TimestampNode(p).Some?
    ensures Read(TimestampNode(p).value) == Some(TimestampLeaf(p.unit, p.adjustToUTC))
  {
    assert "timestamp-" + "millis" == "timestamp-millis" && "local-timestamp-" + "millis" == "local-timestamp-millis";
    assert "timestamp-" + "micros" == "timestamp-micros" && "local-timestamp-" + "micros" == "local-timestamp-micros";
    assert "timestamp-" + "nanos" == "timestamp-nanos" && "local-timestamp-" + "nanos" == "local-timestamp-nanos";
  }

  lemma DecimalReadsBack(p: Decimal.Params)
    ensures Read(DecimalNode(p)) == Some(Leaf(CommonType.Decimal, Some(Logical(Some(p), None, None))))
  {
    var m := DecimalNode(p).entries;
    assert ReadNumber(m, "precision") == Some(p.precision) && ReadNumber(m, "scale") == Some(p.scale);
  }

  predicate IsContainer(c: Common) {
    c.typ == Array || c.typ == Map || c.typ == Object || c.typ == Union
  }

  lemma LeafReadsBack(c: Common, recordName: string, namespace: string, isRoot: bool)
    requires !IsContainer(c) && EmitInner(c, recordName, namespace, isRoot).Some?
    ensures Read(EmitInner(c, recordName, namespace, isRoot).value) == Some(Told(c, recordName).(optional := false))
  {
    match c.typ
    case Timestamp => TimestampReadsBack(c.EffectiveTimestamp());
    case Decimal => DecimalReadsBack(c.DecimalParams().value);
    case _ =>
  }

  lemma {:induction false} InnerReadsBackIff(c: Common, recordName: string, namespace: string, isRoot: bool)
    requires EmitInner(c, recordName, namespace, isRoot).Some?
    ensures Read(EmitInner(c, recordName, namespace, isRoot).value) == Some(Told(c, recordName).(optional := false)) <==> Readable(c)
    decreases c, 2
  {
    match c.typ
    case Array => ElementReadsBackIff(c.children, "array", "items");
    case Map => ElementReadsBackIff(c.children, "map", "values");
    case Object => RecordReadsBackIff(c.children, c.name, recordName, namespace, isRoot);
    case Union => UnionReadsBackIff(c, recordName);
    case _ => LeafReadsBack(c, recordName, namespace, isRoot);
  }

  lemma {:induction false} ElementReadsBackIff(children: seq<Common>, typ: string, key: string)
    requires EmitElement(children, typ, key).Some?
    requires (typ == "array" && key == "items") || (typ == "map" && key == "values")
    ensures var told := Common(if typ == "array" then Array else Map, "", false, None, [Told(children[0], "")]);
            Read(EmitElement(children, typ, key).value) == Some(told) <==> Readable(children[0])
    decreases children, 0
  {
    ReadsBackIff(children[0], "", "", false);
  }

  lemma {:induction false} RecordReadsBackIff(children: seq<Common>, name: string, recordName: string, namespace: string, isRoot: bool)
    requires EmitFields(children).Some?
    ensures var told := Common(Object, if name == "" then recordName else name, false, None, ToldFields(children));
            Read(RecordNode(name, recordName, namespace, isRoot, EmitFields(children).value)) == Some(told) <==> AllReadable(children)
    decreases children, 1
  {
    FieldsReadBackIff(children);
    RecordRead(name, recordName, namespace, isRoot, EmitFields(children).value);
  }

  lemma RecordRead(name: string, recordName: string, namespace: string, isRoot: bool, xs: seq<Value>)
    ensures var fields := ReadFields(xs);
            Read(RecordNode(name, recordName, namespace, isRoot, xs)) ==
            if fields.None? then None else Some(Common(Object, if name == "" then recordName else name, false, None, fields.value))
  {
    var v := RecordNode(name, recordName, namespace, isRoot, xs);
    assert "logicalType" !in v.entries && v.StrAt("type") == "record" && v.entries["fields"] == Arr(xs);
  }

  lemma {:induction false} UnionReadsBackIff(c: Common, recordName: string)
    requires c.typ == Union && EmitVariants(c.children).Some?
    ensures Read(Arr(EmitVariants(c.children).value)) == Some(Told(c, recordName).(optional := false)) <==> Readable(c)
    decreases c, 1
  {
    if NullFirst(c) {
      ToldNullFirst(c, recordName);
      NeverNullFirst(Arr(EmitVariants(c.children).value));
    } else {
      VariantsReadBackIff(c.children);
      NotOptional(c);
    }
  }

  /** A record's own name is the field's name, so naming the field again changes nothing. */
  lemma FieldName(c: Common)
    requires EmitNode(c, c.name, "", false).Some?
    ensures var r := Read(EmitNode(c, c.name, "", false).value);
            r.Some? && r.value.(name := c.name) == Told(c, c.name).(name := c.name) ==> r.value == Told(c, c.name)
  {
    var v := EmitNode(c, c.name, "", false).value;
    NeverNullFirst(v);
    if c.typ == Object {
      var inner := EmitInner(c, c.name, "", false).value;
      assert inner.StrAt("name") == c.name && inner.StrAt("type") == "record" && "logicalType" !in inner.entries;
      assert Read(inner).Some? ==> Read(inner).value.name == c.name;
    }
  }

  lemma {:induction false} FieldsReadBackIff(children: seq<Common>)
    requires EmitFields(children).Some?
    ensures ReadFields(EmitFields(children).value) == Some(ToldFields(children)) <==>
            AllReadable(children)
    decreases children, 0
  {
    if children != [] {
      var n := |children| - 1;
      FieldsReadBackIff(children[..n]);
      ReadsBackIff(children[n], children[n].name, "", false);
      FieldName(children[n]);
      FieldStep(children);
    }
  }

  lemma FieldStep(children: seq<Common>)
    requires children != [] && EmitFields(children).Some?
    ensures var last := children[|children| - 1];
            var init, node := children[..|children| - 1], EmitNode(last, last.name, "", false);
            && EmitFields(init).Some? && node.Some?
            && (ReadFields(EmitFields(children).value) == Some(ToldFields(children)) <==>
                && ReadFields(EmitFields(init).value) == Some(ToldFields(init))
                && Read(node.value).Some?
                && Read(node.value).value.(name := last.name) == Told(last, last.name).(name := last.name))
  {
    var fields := EmitFields(children).value;
    var init, last := children[..|children| - 1], children[|children| - 1];
    assert fields[..|fields| - 1] == EmitFields(init).value;
    var c := Read(EmitNode(last, last.name, "", false).value);
    if ReadFields(EmitFields(init).value).Some? && c.Some? {
      SameEnds(ReadFields(EmitFields(init).value).value, c.value.(name := last.name),
               ToldFields(init), Told(last, last.name).(name := last.name));
    }
  }

  lemma VariantStep(children: seq<Common>)
    requires children != [] && EmitVariants(children).Some?
    ensures var last := children[|children| - 1];
            var init, node := children[..|children| - 1], EmitNode(last, "", "", false);
            && EmitVariants(init).Some? && node.Some?
            && (ReadAll(EmitVariants(children).value) == Some(ToldVariants(children)) <==>
                ReadAll(EmitVariants(init).value) == Some(ToldVariants(init)) && Read(node.value) == Some(Told(last, "")))
  {
    var variants := EmitVariants(children).value;
    var init, last := children[..|children| - 1], children[|children| - 1];
    assert variants[..|variants| - 1] == EmitVariants(init).value;
    var c := Read(EmitNode(last, "", "", false).value);
    if ReadAll(EmitVariants(init).value).Some? && c.Some? {
      SameEnds(ReadAll(EmitVariants(init).value).value, c.value, ToldVariants(init), Told(last, ""));
    }
  }

  lemma {:induction false} VariantsReadBackIff(children: seq<Common>)
    requires EmitVariants(children).Some?
    ensures ReadAll(EmitVariants(children).value) == Some(ToldVariants(children)) <==>
            AllReadable(children)
    decreases children, 0
  {
    if children != [] {
      var n := |children| - 1;
      VariantsReadBackIff(children[..n]);
      ReadsBackIff(children[n], "", "", false);
      VariantStep(children);
    }
  }

  lemma {:induction false} VariantAt(children: seq<Common>, i: nat)
    requires EmitVariants(children).Some? && i < |children|
    ensures |EmitVariants(children).value| == |children|
    ensures EmitNode(children[i], "", "", false) == Some(EmitVariants(children).value[i])
  {
    var n := |children| - 1;
    if i < n {
      VariantAt(children[..n], i);
    } else if n > 0 {
      VariantAt(children[..n], 0);
    }
  }

  lemma NotOptional(c: Common)
    requires c.typ == Union && EmitVariants(c.children).Some? && !NullFirst(c)
    ensures !IsOptional(EmitVariants(c.children).value)
  {
    if c.children != [] {
      VariantAt(c.children, 0);
      EmittedIsUnion(c.children[0], "", "", false);
    }
  }

  lemma {:induction false} TwoVariants(a: Common, b: Common, x: Value, y: Value)
    requires EmitNode(a, "", "", false) == Some(x) && EmitNode(b, "", "", false) == Some(y)
    ensures EmitVariants([a, b]) == Some([x, y])
  {
    VariantsOneMore([], a);
    VariantsOneMore([a], b);
    assert [] + [a] == [a] && [a] + [b] == [a, b] && EmitVariants([]) == Some([]);
    assert [] + [x] == [x] && [x] + [y] == [x, y];
  }

  /**
   * Why unions of null and one other branch cannot be read back: they are emitted as
   * the same schema as the optional type.
   */
  lemma {:induction false} OptionalLooksLikeUnion(c: Common, name: string)
    requires !c.optional && EmitNode(c, "", "", false).Some?
    ensures var u := Common(Union, name, false, None, [Common(CommonType.Null, "", false, None, []), c]);
            EmitNode(u, "", "", false) == EmitNode(c.(optional := true), "", "", false)
  {
    var nothing := Common(CommonType.Null, "", false, None, []);
    var node := EmitNode(c, "", "", false).value;
    TwoVariants(nothing, c, Str("null"), node);
    assert EmitInner(c.(optional := true), "", "", false) == EmitInner(c, "", "", false) == Some(node);
  }

  lemma ToldOptional(c: Common, recordName: string)
    ensures Told(c, recordName).optional == c.optional
  {
  }

  /** No reader whatever recovers both an optional type and the union of null and that type. */
  lemma {:induction false} NoReaderRecoversBoth(c: Common, name: string, read: Value -> Option<Common>)
    requires !c.optional && EmitNode(c, "", "", false).Some?
    ensures var u, o := Common(Union, name, false, None, [Common(CommonType.Null, "", false, None, []), c]), c.(optional := true);
            && EmitNode(u, "", "", false).Some? && EmitNode(o, "", "", false).Some?
            && !(read(EmitNode(u, "", "", false).value) == Some(Told(u, "")) && read(EmitNode(o, "", "", false).value) == Some(Told(o, "")))
  {
    var u := Common(Union, name, false, None, [Common(CommonType.Null, "", false, None, []), c]);
    OptionalLooksLikeUnion(c, name);
    ToldOptional(u, "");
    ToldOptional(c.(optional := true), "");
  }

  // ----- what can be expressed

  /** Arrays and maps name their element, and logical types have parameters Avro knows. */
  ghost predicate Expressible(c: Common)
    decreases c
  {
    match c.typ
    case Unknown => false
    case BigDecimal => false
    case Decimal => c.DecimalParams().Some?
    case Timestamp => c.EffectiveTimestamp().unit != Seconds
    case TimeOfDay =>
      var p := c.TimeOfDayParams();
      p.Some? && !p.value.adjustToUTC && (p.value.unit == Millis || p.value.unit == Micros)
    case Array => c.children != [] && Expressible(c.children[0])
    case Map => c.children != [] && Expressible(c.children[0])
    case Object => forall i :: 0 <= i < |c.children| ==> Expressible(c.children[i])
    case Union => forall i :: 0 <= i < |c.children| ==> Expressible(c.children[i])
    case _ => true
  }

  /** Exactly the expressible schemas are emitted. */
  lemma {:induction false} EmitsIff(c: Common, recordName: string, namespace: string, isRoot: bool)
    ensures EmitNode(c, recordName, namespace, isRoot).Some? <==> Expressible(c)
    decreases c, 1
  {
    match c.typ
    case Array => ElementEmitsIff(c.children, "array", "items");
    case Map => ElementEmitsIff(c.children, "map", "values");
    case Object => ListEmitsIff(c.children);
    case Union => ListEmitsIff(c.children);
    case _ =>
  }

  lemma {:induction false} ElementEmitsIff(children: seq<Common>, typ: string, key: string)
    ensures EmitElement(children, typ, key).Some? <==> children != [] && Expressible(children[0])
    decreases children, 0
  {
    if children != [] {
      EmitsIff(children[0], "", "", false);
    }
  }

  lemma {:induction false} ListEmitsIff(children: seq<Common>)
    ensures EmitFields(children).Some? <==> forall i :: 0 <= i < |children| ==> Expressible(children[i])
    ensures EmitVariants(children).Some? <==> forall i :: 0 <= i < |children| ==> Expressible(children[i])
    decreases children, 0
  {
    if children != [] {
      var n := |children| - 1;
      ListEmitsIff(children[..n]);
      EmitsIff(children[n], children[n].name, "", false);
      EmitsIff(children[n], "", "", false);
      assert forall i :: 0 <= i < n ==> children[..n][i] == children[i];
    }
  }

  // ----- records, key by key

  /** A field: its name and type, and a null default exactly when it is optional. */
  ghost predicate IsField(c: Common, f: Value) {
    && f.Obj? && f.entries.Keys == {"name", "type"} + (if c.optional then {"default"} else {})
    && f.entries["name"] == Str(c.name)
    && EmitNode(c, c.name, "", false) == Some(f.entries["type"])
    && (c.optional ==> f.entries["default"] == Value.Null)
  }

  /** A record: its own name or the one given, its fields in order, and a namespace only at the root, if there is one. */
  ghost predicate IsRecord(c: Common, recordName: string, namespace: string, isRoot: bool, v: Value) {
    && v.Obj?
    && v.entries.Keys == {"type", "name", "fields"} + (if isRoot && namespace != "" then {"namespace"} else {})
    && v.entries["type"] == Str("record") && v.entries["name"] == Str(if c.name != "" then c.name else recordName)
    && (isRoot && namespace != "" ==> v.entries["namespace"] == Str(namespace))
    && v.entries["fields"].Arr? && |v.entries["fields"].elems| == |c.children|
    && forall i :: 0 <= i < |c.children| ==> IsField(c.children[i], v.entries["fields"].elems[i])
  }

  /** Records are emitted key by key as stated, after null in a union of two if they are optional. */
  lemma {:induction false} RecordEmitted(c: Common, recordName: string, namespace: string, isRoot: bool)
    requires c.typ == Object && EmitNode(c, recordName, namespace, isRoot).Some?
    ensures var v := EmitNode(c, recordName, namespace, isRoot).value;
            if c.optional then v.Arr? && |v.elems| == 2 && v.elems[0] == Str("null") && IsRecord(c, recordName, namespace, isRoot, v.elems[1])
            else IsRecord(c, recordName, namespace, isRoot, v)
  {
    var fields := EmitFields(c.children).value;
    var v := RecordNode(c.name, recordName, namespace, isRoot, fields);
    FieldCount(c.children);
    forall i | 0 <= i < |c.children| ensures IsField(c.children[i], fields[i]) {
      FieldAt(c.children, i);
    }
    assert v.entries["fields"] == Arr(fields);
    assert IsRecord(c, recordName, namespace, isRoot, v);
  }

  // ----- unions

  /** What tells the branches of a union apart: the name of a record, else the underlying type. */
  datatype Branch = Named(name: string) | Unnamed(typ: string)

  function BranchOf(v: Value): Branch {
    if v.Str? then Unnamed(v.s)
    else if v.StrAt("type") == "record" then Named(v.StrAt("name"))
    else Unnamed(v.StrAt("type"))
  }

  /**
   * No union directly contains a union, or two branches of the same type or name, anywhere in the
   * schema (Apache Avro Specification, Complex Types, Unions).
   */
  ghost predicate LegalUnions(v: Value)
    decreases v, 0
  {
    match v
    case Arr(xs) => (forall i :: 0 <= i < |xs| ==> LegalVariant(xs[i])) && ToldApart(xs)
    case Obj(m) =>
      && ("items" in m ==> LegalUnions(m["items"]))
      && ("values" in m ==> LegalUnions(m["values"]))
      && ("fields" in m && m["fields"].Arr? ==>
            forall i :: 0 <= i < |m["fields"].elems| ==> HasLegalType(m["fields"].elems[i]))
    case _ => true
  }

  ghost predicate ToldApart(xs: seq<Value>) {
    forall i, j :: 0 <= i < j < |xs| ==> BranchOf(xs[i]) != BranchOf(xs[j])
  }

  ghost predicate LegalVariant(x: Value)
    decreases x, 1
  {
    !x.Arr? && LegalUnions(x)
  }

  ghost predicate HasLegalType(f: Value)
    decreases f, 1
  {
    f.Obj? && "type" in f.entries ==> LegalUnions(f.entries["type"])
  }

  /** The underlying Avro type of a common type, or its name. */
  function Underlying(c: Common): Branch {
    match c.typ
    case Object => Named(c.name)
    case Null => Unnamed("null")
    case Boolean => Unnamed("boolean")
    case Int32 => Unnamed("int")
    case Date => Unnamed("int")
    case Int64 => Unnamed("long")
    case Timestamp => Unnamed("long")
    case TimeOfDay => Unnamed(if c.TimeOfDayParams().Some? && c.TimeOfDayParams().value.unit == Millis then "int" else "long")
    case Float32 => Unnamed("float")
    case Float64 => Unnamed("double")
    case String => Unnamed("string")
    case UUID => Unnamed("string")
    case Array => Unnamed("array")
    case Map => Unnamed("map")
    case _ => Unnamed("bytes")
  }

  /**
   * Unions in the emitted part of the schema are not optional, contain neither unions nor optional
   * types, and have variants of different underlying types; an optional type is not null.
   */
  ghost predicate FlatUnions(c: Common)
    decreases c, 0
  {
    !(c.optional && (c.typ == Union || c.typ == CommonType.Null)) &&
    match c.typ
    case Union => (forall i :: 0 <= i < |c.children| ==> FlatVariant(c.children[i])) && Apart(c.children)
    case Object => forall i :: 0 <= i < |c.children| ==> FlatUnions(c.children[i])
    case Array => c.children != [] ==> FlatUnions(c.children[0])
    case Map => c.children != [] ==> FlatUnions(c.children[0])
    case _ => true
  }

  ghost predicate Apart(children: seq<Common>) {
    forall i, j :: 0 <= i < j < |children| ==> Underlying(children[i]) != Underlying(children[j])
  }

  ghost predicate FlatVariant(c: Common)
    decreases c, 1
  {
    c.typ != Union && !c.optional && FlatUnions(c)
  }

  /** The emitted form of a type that is no union tells its underlying type, and its name if it is a record. */
  lemma InnerBranch(c: Common, recordName: string, namespace: string, isRoot: bool)
    requires c.typ != Union && EmitInner(c, recordName, namespace, isRoot).Some?
    ensures var b := BranchOf(EmitInner(c, recordName, namespace, isRoot).value);
            b == if c.typ == Object && c.name == "" then Named(recordName) else Underlying(c)
  {
    var v := EmitInner(c, recordName, namespace, isRoot).value;
    assert v.Obj? && "type" in v.entries ==> v.entries["type"].Str?;
  }

  /** Emitted unions are legal exactly when the schema's unions are flat. */
  lemma {:induction false} LegalIff(c: Common, recordName: string, namespace: string, isRoot: bool)
    requires EmitNode(c, recordName, namespace, isRoot).Some?
    ensures LegalUnions(EmitNode(c, recordName, namespace, isRoot).value) <==> FlatUnions(c)
    decreases c, 1
  {
    InnerLegalIff(c, recordName, namespace, isRoot);
    InnerIsUnion(c, recordName, namespace, isRoot);
    if c.optional {
      OptionalLegalIff(c, recordName, namespace, isRoot);
    }
  }

  lemma OptionalLegalIff(c: Common, recordName: string, namespace: string, isRoot: bool)
    requires EmitInner(c, recordName, namespace, isRoot).Some?
    ensures var inner := EmitInner(c, recordName, namespace, isRoot).value;
            LegalUnions(Arr([Str("null"), inner])) <==> LegalVariant(inner) && c.typ != CommonType.Null
  {
    var inner := EmitInner(c, recordName, namespace, isRoot).value;
    var xs := [Str("null"), inner];
    InnerIsUnion(c, recordName, namespace, isRoot);
    assert xs[0] == Str("null") && xs[1] == inner && LegalVariant(xs[0]);
    if c.typ != Union {
      InnerBranch(c, recordName, namespace, isRoot);
      NullApart(c);
      assert ToldApart(xs) <==> BranchOf(xs[0]) != BranchOf(xs[1]);
    }
  }

  lemma NullApart(c: Common)
    ensures Underlying(c) == Unnamed("null") <==> c.typ == CommonType.Null
  {
    assert "long"[0] != "null"[0] && "int"[0] != "null"[0];
  }

  lemma {:induction false} InnerLegalIff(c: Common, recordName: string, namespace: string, isRoot: bool)
    requires EmitInner(c, recordName, namespace, isRoot).Some?
    ensures LegalUnions(EmitInner(c, recordName, namespace, isRoot).value) <==> FlatUnions(c.(optional := false))
    decreases c, 0
  {
    match c.typ
    case Array => ElementLegalIff(c.children, "array", "items");
    case Map => ElementLegalIff(c.children, "map", "values");
    case Object => RecordLegalIff(c.children, c.name, recordName, namespace, isRoot);
    case Union => VariantsLegalIff(c.children);
    case _ =>
  }

  lemma {:induction false} ElementLegalIff(children: seq<Common>, typ: string, key: string)
    requires EmitElement(children, typ, key).Some?
    requires (typ == "array" && key == "items") || (typ == "map" && key == "values")
    ensures LegalUnions(EmitElement(children, typ, key).value) <==> FlatUnions(children[0])
    decreases children
  {
    LegalIff(children[0], "", "", false);
  }

  lemma {:induction false} RecordLegalIff(children: seq<Common>, name: string, recordName: string, namespace: string, isRoot: bool)
    requires EmitFields(children).Some?
    ensures LegalUnions(RecordNode(name, recordName, namespace, isRoot, EmitFields(children).value)) <==>
            forall i :: 0 <= i < |children| ==> FlatUnions(children[i])
    decreases children, 1
  {
    FieldsLegalIff(children);
  }

  lemma {:induction false} FieldsLegalIff(children: seq<Common>)
    requires EmitFields(children).Some?
    ensures |EmitFields(children).value| == |children|
    ensures forall i :: 0 <= i < |children| ==> (HasLegalType(EmitFields(children).value[i]) <==> FlatUnions(children[i]))
    decreases children, 0
  {
    FieldCount(children);
    forall i | 0 <= i < |children| ensures HasLegalType(EmitFields(children).value[i]) <==> FlatUnions(children[i]) {
      FieldAt(children, i);
      LegalIff(children[i], children[i].name, "", false);
    }
  }

  lemma {:induction false} VariantsLegalIff(children: seq<Common>)
    requires EmitVariants(children).Some?
    ensures LegalUnions(Arr(EmitVariants(children).value)) <==>
            (forall i :: 0 <= i < |children| ==> FlatVariant(children[i])) && Apart(children)
    decreases children, 0
  {
    var xs := EmitVariants(children).value;
    if children != [] {
      VariantAt(children, 0);
    }
    forall i | 0 <= i < |children| ensures LegalVariant(xs[i]) <==> FlatVariant(children[i]) {
      VariantAt(children, i);
      EmittedIsUnion(children[i], "", "", false);
      LegalIff(children[i], "", "", false);
    }
    if forall i :: 0 <= i < |children| ==> FlatVariant(children[i]) {
      VariantsApartIff(children);
    }
  }

  lemma VariantBranch(children: seq<Common>, i: nat)
    requires EmitVariants(children).Some? && i < |children| && FlatVariant(children[i])
    ensures |EmitVariants(children).value| == |children| && BranchOf(EmitVariants(children).value[i]) == Underlying(children[i])
  {
    VariantAt(children, i);
    InnerBranch(children[i], "", "", false);
  }

  lemma VariantsApartIff(children: seq<Common>)
    requires EmitVariants(children).Some? && forall i :: 0 <= i < |children| ==> FlatVariant(children[i])
    ensures ToldApart(EmitVariants(children).value) <==> Apart(children)
  {
    var xs := EmitVariants(children).value;
    if children != [] {
      VariantAt(children, 0);
    }
    ghost var same := forall i :: 0 <= i < |children| ==> BranchOf(xs[i]) == Underlying(children[i]);
    assert same by {
      forall i | 0 <= i < |children| ensures BranchOf(xs[i]) == Underlying(children[i]) {
        VariantBranch(children, i);
      }
    }
  }

  lemma {:induction false} FieldCount(children: seq<Common>)
    requires EmitFields(children).Some?
    ensures |EmitFields(children).value| == |children|
  {
    if children != [] {
      FieldCount(children[..|children| - 1]);
    }
  }

  lemma {:induction false} FieldAt(children: seq<Common>, i: nat)
    requires EmitFields(children).Some? && i < |children|
    ensures |EmitFields(children).value| == |children|
    ensures EmitNode(children[i], children[i].name, "", false).Some?
    ensures EmitFields(children).value[i] == FieldNode(children[i], EmitNode(children[i], children[i].name, "", false).value)
  {
    FieldCount(children);
    var n := |children| - 1;
    if i < n {
      FieldAt(children[..n], i);
    }
  }
}
