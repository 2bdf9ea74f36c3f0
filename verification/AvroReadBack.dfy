/** What the decoder's own reader makes of an emitted Avro schema. */
module AvroReadBack {
  import opened Json
  import opened CommonSchema
  import opened AvroEmission
  import opened AvroParser
  import AvroRoundTrip
  import Decimal

  // ----- names that are not type names

  const Keywords := {"null", "boolean", "int", "long", "float", "double", "bytes", "string", "record", "array", "map"}

  /** No type name is registered. */
  ghost predicate Clean(n: Names) {
    forall k :: k in n.types ==> Suffix(k) !in Keywords
  }

  lemma {:induction false} SuffixHasNoDot(name: string)
    ensures '.' !in Suffix(name)
  {
    if '.' in name && name[|name| - 1] != '.' {
      SuffixHasNoDot(name[..|name| - 1]);
    }
  }

  lemma {:induction false} SuffixQualified(ns: string, name: string)
    requires '.' !in name
    ensures Suffix(ns + "." + name) == name
  {
    var q := ns + "." + name;
    assert q[|ns|] == '.';
    if name != "" {
      var init := name[..|name| - 1];
      assert q[..|q| - 1] == ns + "." + init;
      SuffixQualified(ns, init);
    }
  }

  lemma KeywordHasNoDot(s: string)
    requires s in Keywords
    ensures '.' !in s
  {
  }

  lemma LookupKeyword(n: Names, ns: string, s: string)
    requires Clean(n) && s in Keywords
    ensures Lookup(n, ns, s) == None
  {
    KeywordHasNoDot(s);
    SuffixQualified(ns, s);
  }

  lemma PutClean(n: Names, key: string, owner: string, c: Common)
    requires Clean(n) && Suffix(key) !in Keywords
    ensures Clean(PutName(n, key, owner, c))
  {
  }

  lemma RegisterClean(n: Names, ns: string, v: Value, c: Common)
    requires Clean(n) && Suffix(v.StrAt("name")) !in Keywords
    ensures Clean(Register(n, AssignFullName(ns, v), c))
  {
    var a, name := AssignFullName(ns, v), v.StrAt("name");
    SuffixHasNoDot(name);
    if a.full != "" {
      assert Suffix(a.full) !in Keywords && Suffix(a.short) !in Keywords by {
        if '.' !in name {
          SuffixQualified(v.StrAt("namespace"), name);
          SuffixQualified(ns, name);
        }
      }
      PutClean(n, a.full, a.full, c);
      PutClean(PutName(n, a.full, a.full, c), a.short, a.full, c);
    }
  }

  /** No emitted record is named, its namespace apart, like a type. */
  ghost predicate Ordinary(c: Common, recordName: string)
    decreases c, 0
  {
    match c.typ
    case Object => Suffix(if c.name == "" then recordName else c.name) !in Keywords && AllOrdinaryFields(c.children)
    case Union => AllOrdinary(c.children)
    case _ => true
  }

  ghost predicate AllOrdinaryFields(children: seq<Common>)
    decreases children, 1
  {
    children == [] ||
    (var last := children[|children| - 1];
     AllOrdinaryFields(children[..|children| - 1]) && Ordinary(last, last.name))
  }

  ghost predicate AllOrdinary(children: seq<Common>)
    decreases children, 1
  {
    children == [] || (AllOrdinary(children[..|children| - 1]) && Ordinary(children[|children| - 1], ""))
  }

  // ----- what the reader can take

  /** Emitted as nothing but a type name. */
  predicate PlainType(t: CommonType) {
    t in {CommonType.Null, Boolean, Int32, Int64, Float32, Float64, String, ByteArray, Any}
  }

  predicate Plain(c: Common) {
    !c.optional && PlainType(c.typ)
  }

  predicate IsNull(c: Common) {
    c.typ == CommonType.Null && !c.optional
  }

  /** A union of null and one other branch, in either order. */
  predicate NullAndOne(children: seq<Common>) {
    |children| == 2 && IsNull(children[0]) != IsNull(children[1])
  }

  predicate Int32Params(p: Decimal.Params) {
    p.precision < 0x8000_0000 && p.scale < 0x8000_0000
  }

  /** As the type of a field. */
  ghost predicate Good(cfg: Config, c: Common)
    decreases c, 0
  {
    !(c.optional && (c.typ == CommonType.Null || c.typ == Union)) &&
    match c.typ
    case Union => !NullAndOne(c.children) && AllBranches(cfg, c.children)
    case Object => AllGood(cfg, c.children)
    case Array => c.children != [] && Plain(c.children[0])
    case Map => c.children != [] && Plain(c.children[0])
    case Timestamp => cfg.preserve
    case Date => cfg.preserve
    case TimeOfDay => cfg.preserve
    case UUID => cfg.preserve
    case Decimal => c.DecimalParams().Some? && Int32Params(c.DecimalParams().value) && cfg.valid(c.DecimalParams().value)
    case _ => true
  }

  /** As a branch of a union. */
  ghost predicate Branch(cfg: Config, c: Common)
    decreases c, 1
  {
    !c.optional && c.typ != Union && Good(cfg, c)
  }

  ghost predicate AllGood(cfg: Config, children: seq<Common>)
    decreases children, 2
  {
    children == [] || (AllGood(cfg, children[..|children| - 1]) && Good(cfg, children[|children| - 1]))
  }

  ghost predicate AllBranches(cfg: Config, children: seq<Common>)
    decreases children, 2
  {
    children == [] || (AllBranches(cfg, children[..|children| - 1]) && Branch(cfg, children[|children| - 1]))
  }

  /** What emission keeps, up to whether the type is optional. */
  function ToldInner(c: Common, recordName: string): Common {
    AvroRoundTrip.Told(c, recordName).(optional := false)
  }

  function ToldField(c: Common): Common {
    AvroRoundTrip.Told(c, c.name).(name := c.name)
  }

  ghost predicate GivesBack(r: Parse, c: Common) {
    r.Parsed? && r.c == c
  }

  // ----- type names

  lemma PlainEmitted(c: Common, recordName: string, namespace: string, isRoot: bool)
    requires PlainType(c.typ)
    ensures EmitInner(c, recordName, namespace, isRoot).Some? && EmitInner(c, recordName, namespace, isRoot).value.Str?
    ensures var s := EmitInner(c, recordName, namespace, isRoot).value.s;
            s in Keywords && s !in {"record", "enum", "fixed", "array", "map"} && ToldInner(c, recordName) == Bare(TypeOf(s), "")
    ensures EmitInner(c, recordName, namespace, isRoot).value == Str("null") <==> c.typ == CommonType.Null
  {
    AvroRoundTrip.InnerIsUnion(c, recordName, namespace, isRoot);
  }

  // ----- logical types

  predicate IsLogical(t: CommonType) {
    t in {Timestamp, Date, TimeOfDay, UUID, CommonType.Decimal}
  }

  /** A node of a given type that is no record: its base type refined, or taken as it is. */
  lemma TypedParse(cfg: Config, n: Names, ns: string, v: Value, typ: string)
    requires Clean(n) && v.Obj? && "type" in v.entries && v.entries["type"] == Str(typ) && typ in Keywords && typ != "record"
    ensures ParseMap(cfg, n, ns, v) ==
            var refined := Refine(cfg, Bare(TypeOf(typ), v.StrAt("name")), v);
            if refined.BadDecimal? then Failed
            else if refined.applied then Parsed(refined.c, n)
            else ParseContainer(cfg, n, ns, refined.c, v)
  {
    LookupKeyword(n, ns, typ);
    assert v.StrAt("type") == typ && typ !in {"enum", "fixed"};
    assert AssignFullName(ns, v) == Assigned("", "", ns);
  }

  lemma TimestampRefined(cfg: Config, p: TimeParams)
    requires TimestampNode(p).Some?
    ensures Refine(cfg, Bare(Int64, ""), TimestampNode(p).value) ==
            if cfg.preserve then Refined(AsTimestamp(Bare(Int64, ""), p.unit, p.adjustToUTC), true) else Refined(Bare(Int64, ""), false)
  {
    assert "timestamp-" + "millis" == "timestamp-millis" && "local-timestamp-" + "millis" == "local-timestamp-millis";
    assert "timestamp-" + "micros" == "timestamp-micros" && "local-timestamp-" + "micros" == "local-timestamp-micros";
    assert "timestamp-" + "nanos" == "timestamp-nanos" && "local-timestamp-" + "nanos" == "local-timestamp-nanos";
    var name := TimestampName(p).value;
    assert TimestampNode(p).value.StrAt("logicalType") == name;
  }

  lemma DecimalRefined(cfg: Config, p: Decimal.Params)
    ensures Refine(cfg, Bare(ByteArray, ""), DecimalNode(p)) ==
            if Int32Params(p) && cfg.valid(p)
            then Refined(Common(CommonType.Decimal, "", false, Some(Logical(Some(p), None, None)), []), true) else BadDecimal
  {
    var m := DecimalNode(p).entries;
    assert m["precision"].n.value.Floor == p.precision && m["scale"].n.value.Floor == p.scale;
    assert DecimalNode(p).StrAt("logicalType") == "decimal";
  }

  /** The emitted node of a logical type, and the base type it is refined from. */
  lemma LogicalNodeFacts(c: Common, recordName: string, namespace: string, isRoot: bool) returns (v: Value, base: string)
    requires IsLogical(c.typ) && EmitInner(c, recordName, namespace, isRoot).Some?
    ensures EmitInner(c, recordName, namespace, isRoot).value == v
    ensures v.Obj? && "name" !in v.entries && v.StrAt("type") == base && "type" in v.entries
    ensures base in {"int", "long", "string", "bytes"}
  {
    v := EmitInner(c, recordName, namespace, isRoot).value;
    base := v.StrAt("type");
  }

  /** What refining a base type gives: the type that was emitted, or else an error or the base type. */
  ghost predicate RefinesTo(cfg: Config, base: string, v: Value, told: Common, good: bool) {
    var refined := Refine(cfg, Bare(TypeOf(base), ""), v);
    if good then refined == Refined(told, true)
    else refined.BadDecimal? || (!refined.applied && refined.c == Bare(TypeOf(base), ""))
  }

  lemma TimestampRefines(cfg: Config, p: TimeParams)
    requires TimestampNode(p).Some?
    ensures RefinesTo(cfg, "long", TimestampNode(p).value, Common(Timestamp, "", false, Some(Logical(None, Some(p), None)), []), cfg.preserve)
  {
    TimestampRefined(cfg, p);
  }

  lemma DecimalRefines(cfg: Config, p: Decimal.Params)
    ensures RefinesTo(cfg, "bytes", DecimalNode(p), Common(CommonType.Decimal, "", false, Some(Logical(Some(p), None, None)), []),
                      Int32Params(p) && cfg.valid(p))
  {
    DecimalRefined(cfg, p);
  }

  lemma DateRefines(cfg: Config)
    ensures RefinesTo(cfg, "int", LogicalNode("int", "date"), Bare(Date, ""), cfg.preserve)
  {
    assert LogicalNode("int", "date").StrAt("logicalType") == "date";
  }

  lemma UuidRefines(cfg: Config)
    ensures RefinesTo(cfg, "string", LogicalNode("string", "uuid"), Bare(UUID, ""), cfg.preserve)
  {
    assert LogicalNode("string", "uuid").StrAt("logicalType") == "uuid";
  }

  lemma TimeOfDayRefines(cfg: Config, p: TimeParams)
    requires TimeOfDayNode(Some(p)).Some?
    ensures RefinesTo(cfg, if p.unit == Millis then "int" else "long", TimeOfDayNode(Some(p)).value,
                      Common(TimeOfDay, "", false, Some(Logical(None, None, Some(p))), []), cfg.preserve)
  {
    var v := TimeOfDayNode(Some(p)).value;
    assert v.StrAt("logicalType") == if p.unit == Millis then "time-millis" else "time-micros";
  }

  lemma LogicalRefined(cfg: Config, c: Common, recordName: string, namespace: string, isRoot: bool, v: Value, base: string)
    requires IsLogical(c.typ) && EmitInner(c, recordName, namespace, isRoot) == Some(v) && v.StrAt("type") == base
    ensures RefinesTo(cfg, base, v, ToldInner(c, recordName), Good(cfg, c.(optional := false)))
  {
    match c.typ
    case Timestamp => TimestampRefines(cfg, c.EffectiveTimestamp());
    case Decimal => DecimalRefines(cfg, c.DecimalParams().value);
    case Date => DateRefines(cfg);
    case UUID => UuidRefines(cfg);
    case TimeOfDay => TimeOfDayRefines(cfg, c.TimeOfDayParams().value);
  }

  lemma RefinedParse(cfg: Config, n: Names, ns: string, v: Value, base: string, told: Common, good: bool)
    requires Clean(n) && v.Obj? && "name" !in v.entries && "type" in v.entries && v.entries["type"] == Str(base)
    requires base in {"int", "long", "string", "bytes"}
    requires !IsBase(told) && told.name == "" && !told.optional
    requires RefinesTo(cfg, base, v, told, good)
    ensures var r := ParseMap(cfg, n, ns, v);
            && (r.Parsed? ==> r.names == n && r.c.name == "" && !r.c.optional)
            && (GivesBack(r, told) <==> good)
  {
    TypedParse(cfg, n, ns, v, base);
    assert v.StrAt("name") == "";
    assert IsBase(Bare(TypeOf(base), ""));
  }

  predicate IsBase(c: Common) {
    c.typ in {Int32, Int64, String, ByteArray}
  }

  lemma LogicalIff(cfg: Config, n: Names, ns: string, c: Common, recordName: string, namespace: string, isRoot: bool)
    requires IsLogical(c.typ) && EmitInner(c, recordName, namespace, isRoot).Some? && Clean(n)
    ensures EmitInner(c, recordName, namespace, isRoot).value.Obj?
    ensures var r := ParseMap(cfg, n, ns, EmitInner(c, recordName, namespace, isRoot).value);
            && (r.Parsed? ==> r.names == n && r.c.name == "" && !r.c.optional)
            && (GivesBack(r, ToldInner(c, recordName)) <==> Good(cfg, c.(optional := false)))
  {
    var v, base := LogicalNodeFacts(c, recordName, namespace, isRoot);
    LogicalRefined(cfg, c, recordName, namespace, isRoot, v, base);
    LogicalTold(c, recordName);
    RefinedParse(cfg, n, ns, v, base, ToldInner(c, recordName), Good(cfg, c.(optional := false)));
  }

  lemma LogicalTold(c: Common, recordName: string)
    requires IsLogical(c.typ)
    ensures ToldInner(c, recordName).typ == c.typ && ToldInner(c, recordName).name == ""
  {
  }

  // ----- arrays and maps

  lemma ElementParse(cfg: Config, n: Names, ns: string, e: Value, typ: string, key: string)
    requires Clean(n) && ((typ == "array" && key == "items") || (typ == "map" && key == "values"))
    ensures ParseMap(cfg, n, ns, Obj(map["type" := Str(typ), key := e])) ==
            if e.Str? then Parsed(Bare(TypeOf(typ), "").(children := [Bare(TypeOf(e.s), "")]), n) else Failed
  {
    var v := Obj(map["type" := Str(typ), key := e]);
    assert v.StrAt("name") == "" && "logicalType" !in v.entries && v.entries["type"] == Str(typ) && v.entries[key] == e;
    TypedParse(cfg, n, ns, v, typ);
  }

  lemma ElementIff(cfg: Config, n: Names, ns: string, children: seq<Common>, typ: string, key: string, told: Common)
    requires EmitElement(children, typ, key).Some? && Clean(n)
    requires (typ == "array" && key == "items") || (typ == "map" && key == "values")
    requires told == Common(if typ == "array" then Array else Map, "", false, None, [AvroRoundTrip.Told(children[0], "")])
    ensures EmitElement(children, typ, key).value.Obj?
    ensures var r := ParseMap(cfg, n, ns, EmitElement(children, typ, key).value);
            && (r.Parsed? ==> r.names == n && r.c.name == "" && !r.c.optional)
            && (GivesBack(r, told) <==> Plain(children[0]))
  {
    var child := children[0];
    ElementParse(cfg, n, ns, EmitNode(child, "", "", false).value, typ, key);
    AvroRoundTrip.EmittedIsUnion(child, "", "", false);
    if PlainType(child.typ) {
      PlainEmitted(child, "", "", false);
    } else if !child.optional {
      NotAString(child, "", "", false);
    }
  }

  lemma NotAString(c: Common, recordName: string, namespace: string, isRoot: bool)
    requires !PlainType(c.typ) && EmitInner(c, recordName, namespace, isRoot).Some?
    ensures !EmitInner(c, recordName, namespace, isRoot).value.Str?
    ensures EmitInner(c, recordName, namespace, isRoot).value.Obj? <==> c.typ != Union
    ensures EmitInner(c, recordName, namespace, isRoot).value != Value.Null
  {
    AvroRoundTrip.InnerIsUnion(c, recordName, namespace, isRoot);
    if c.typ == Array || c.typ == Map {
      var typ, key := if c.typ == Array then "array" else "map", if c.typ == Array then "items" else "values";
      assert EmitElement(c.children, typ, key).value.Obj?;
    }
  }

  // ----- records

  lemma RecordBody(cfg: Config, n: Names, ns: string, v: Value, fields: seq<Value>)
    requires Clean(n) && v.Obj? && "type" in v.entries && v.entries["type"] == Str("record") && "logicalType" !in v.entries
    requires "fields" in v.entries && v.entries["fields"] == Arr(fields)
    ensures ParseBody(cfg, n, ns, v) ==
            var parsed := ParseFields(cfg, n, ns, fields);
            if parsed.OneFailed? then Failed else Parsed(Bare(Object, v.StrAt("name")).(children := parsed.cs), parsed.names)
  {
    LookupKeyword(n, ns, "record");
  }

  /** A record is read by reading its fields, in its own namespace and with its own name registered. */
  lemma RecordParse(cfg: Config, n: Names, ns: string, v: Value, fields: seq<Value>) returns (m: Names, inner: string)
    requires Clean(n) && v.Obj? && "type" in v.entries && v.entries["type"] == Str("record") && "logicalType" !in v.entries
    requires "fields" in v.entries && v.entries["fields"] == Arr(fields) && Suffix(v.StrAt("name")) !in Keywords
    ensures Clean(m)
    ensures var parsed, r := ParseFields(cfg, m, inner, fields), ParseMap(cfg, n, ns, v);
            if parsed.OneFailed? then r == Failed
            else && r.Parsed? && r.c == Bare(Object, v.StrAt("name")).(children := parsed.cs)
                 && (Clean(parsed.names) ==> Clean(r.names))
  {
    var a := AssignFullName(ns, v);
    m, inner := Register(n, a, Placeholder(v, a.short)), if a.full != "" then a.inner else ns;
    RegisterClean(n, ns, v, Placeholder(v, a.short));
    RecordBody(cfg, m, inner, v, fields);
    var parsed := ParseFields(cfg, m, inner, fields);
    if parsed.AllParsed? && Clean(parsed.names) {
      RegisterClean(parsed.names, ns, v, Bare(Object, v.StrAt("name")).(children := parsed.cs));
    }
  }

  lemma RecordNodeFacts(name: string, recordName: string, namespace: string, isRoot: bool, fields: seq<Value>)
    ensures var v := RecordNode(name, recordName, namespace, isRoot, fields);
            && v.Obj? && "type" in v.entries && v.entries["type"] == Str("record") && "logicalType" !in v.entries
            && "fields" in v.entries && v.entries["fields"] == Arr(fields)
            && v.StrAt("name") == if name == "" then recordName else name
  {
  }

  lemma {:induction false} RecordIff(cfg: Config, n: Names, ns: string, children: seq<Common>, name: string, recordName: string,
                                     namespace: string, isRoot: bool)
    requires EmitFields(children).Some? && Clean(n) && AllOrdinaryFields(children)
    requires Suffix(if name == "" then recordName else name) !in Keywords
    ensures var r := ParseMap(cfg, n, ns, RecordNode(name, recordName, namespace, isRoot, EmitFields(children).value));
            var told := Common(Object, if name == "" then recordName else name, false, None, AvroRoundTrip.ToldFields(children));
            && (r.Parsed? ==> Clean(r.names) && r.c.name == told.name && !r.c.optional)
            && (GivesBack(r, told) <==> AllGood(cfg, children))
    decreases children, 1
  {
    var fields := EmitFields(children).value;
    var v := RecordNode(name, recordName, namespace, isRoot, fields);
    RecordNodeFacts(name, recordName, namespace, isRoot, fields);
    var m, inner := RecordParse(cfg, n, ns, v, fields);
    FieldsIff(cfg, m, inner, children);
  }

  ghost predicate AllGiveBack(r: Parses, cs: seq<Common>) {
    r.AllParsed? && r.cs == cs
  }

  lemma {:induction false} FieldsIff(cfg: Config, n: Names, ns: string, children: seq<Common>)
    requires EmitFields(children).Some? && Clean(n) && AllOrdinaryFields(children)
    ensures var r := ParseFields(cfg, n, ns, EmitFields(children).value);
            && (r.AllParsed? ==> Clean(r.names))
            && (AllGiveBack(r, AvroRoundTrip.ToldFields(children)) <==> AllGood(cfg, children))
    decreases children, 0
  {
    if children != [] {
      var init, last := children[..|children| - 1], children[|children| - 1];
      var fields := EmitFields(children).value;
      FieldsIff(cfg, n, ns, init);
      var before := ParseFields(cfg, n, ns, EmitFields(init).value);
      var f := FieldNode(last, EmitNode(last, last.name, "", false).value);
      assert fields[..|fields| - 1] == EmitFields(init).value && fields[|fields| - 1] == f;
      if before.AllParsed? {
        FieldIff(cfg, before.names, ns, last);
        var r := ParseMap(cfg, before.names, ns, f);
        if r.Parsed? {
          AvroRoundTrip.SameEnds(before.cs, r.c, AvroRoundTrip.ToldFields(init), ToldField(last));
        }
      }
    }
  }

  lemma {:induction false} RefsIff(cfg: Config, n: Names, ns: string, children: seq<Common>)
    requires EmitVariants(children).Some? && Clean(n) && AllOrdinary(children)
    ensures var r := ParseRefs(cfg, n, ns, EmitVariants(children).value);
            && (r.AllParsed? ==> Clean(r.names))
            && (AllGiveBack(r, AvroRoundTrip.ToldVariants(children)) <==> AllBranches(cfg, children))
    decreases children, 0
  {
    if children != [] {
      var init, last := children[..|children| - 1], children[|children| - 1];
      var variants := EmitVariants(children).value;
      RefsIff(cfg, n, ns, init);
      var before := ParseRefs(cfg, n, ns, EmitVariants(init).value);
      var x := EmitNode(last, "", "", false).value;
      assert variants[..|variants| - 1] == EmitVariants(init).value && variants[|variants| - 1] == x;
      if before.AllParsed? {
        RefIff(cfg, before.names, ns, last);
        var r := ParseRef(cfg, before.names, ns, x);
        if r.Parsed? {
          AvroRoundTrip.SameEnds(before.cs, r.c, AvroRoundTrip.ToldVariants(init), AvroRoundTrip.Told(last, ""));
        }
      }
    }
  }

  // ----- types

  /** A type that is emitted as an object. */
  lemma {:induction false} ObjectIff(cfg: Config, n: Names, ns: string, c: Common, recordName: string, namespace: string, isRoot: bool)
    requires EmitInner(c, recordName, namespace, isRoot).Some? && Clean(n) && Ordinary(c, recordName)
    requires !PlainType(c.typ) && c.typ != Union
    ensures EmitInner(c, recordName, namespace, isRoot).value.Obj?
    ensures var r := ParseMap(cfg, n, ns, EmitInner(c, recordName, namespace, isRoot).value);
            && (r.Parsed? ==> Clean(r.names) && r.c.name == ToldInner(c, recordName).name && !r.c.optional)
            && (GivesBack(r, ToldInner(c, recordName)) <==> Good(cfg, c.(optional := false)))
    decreases c, 2
  {
    match c.typ
    case Array => ElementIff(cfg, n, ns, c.children, "array", "items", ToldInner(c, recordName));
    case Map => ElementIff(cfg, n, ns, c.children, "map", "values", ToldInner(c, recordName));
    case Object => RecordIff(cfg, n, ns, c.children, c.name, recordName, namespace, isRoot);
    case _ => LogicalIff(cfg, n, ns, c, recordName, namespace, isRoot);
  }

  /** A branch of a union, or what is left of an optional type. */
  lemma {:induction false} InnerRefIff(cfg: Config, n: Names, ns: string, c: Common, recordName: string)
    requires EmitInner(c, recordName, "", false).Some? && Clean(n) && Ordinary(c, recordName)
    ensures var r := ParseRef(cfg, n, ns, EmitInner(c, recordName, "", false).value);
            && (r.Parsed? ==> Clean(r.names) && r.c.name == ToldInner(c, recordName).name && !r.c.optional)
            && (GivesBack(r, ToldInner(c, recordName)) <==> c.typ != Union && Good(cfg, c.(optional := false)))
    decreases c, 3
  {
    if PlainType(c.typ) {
      PlainEmitted(c, recordName, "", false);
      LookupKeyword(n, ns, EmitInner(c, recordName, "", false).value.s);
    } else if c.typ == Union {
      NotAString(c, recordName, "", false);
    } else {
      ObjectIff(cfg, n, ns, c, recordName, "", false);
    }
  }

  lemma {:induction false} RefIff(cfg: Config, n: Names, ns: string, c: Common)
    requires EmitNode(c, "", "", false).Some? && Clean(n) && Ordinary(c, "")
    ensures var r := ParseRef(cfg, n, ns, EmitNode(c, "", "", false).value);
            && (r.Parsed? ==> Clean(r.names))
            && (GivesBack(r, AvroRoundTrip.Told(c, "")) <==> Branch(cfg, c))
    decreases c, 4
  {
    if !c.optional {
      AvroRoundTrip.ToldOptional(c, "");
      assert c.(optional := false) == c && ToldInner(c, "") == AvroRoundTrip.Told(c, "");
      InnerRefIff(cfg, n, ns, c, "");
    }
  }

  // ----- fields

  lemma FieldFacts(c: Common, node: Value)
    ensures var v := FieldNode(c, node);
            && v.Obj? && "type" in v.entries && v.entries["type"] == node && "name" in v.entries && v.entries["name"] == Str(c.name)
            && v.StrAt("name") == c.name && "logicalType" !in v.entries
  {
  }

  /** A field is read as its type says, under its own name. */
  lemma PlainFieldParse(cfg: Config, n: Names, ns: string, c: Common, s: string)
    requires Clean(n) && s in Keywords && s !in {"record", "array", "map"}
    ensures ParseMap(cfg, n, ns, FieldNode(c, Str(s))) == Parsed(Bare(TypeOf(s), c.name), n)
  {
    FieldFacts(c, Str(s));
    TypedParse(cfg, n, ns, FieldNode(c, Str(s)), s);
    NoContainer(s);
  }

  lemma NoContainer(s: string)
    requires s in Keywords && s !in {"record", "array", "map"}
    ensures TypeOf(s) != Object && TypeOf(s) != Map && TypeOf(s) != Array
  {
  }

  lemma FieldParse(cfg: Config, n: Names, ns: string, c: Common, node: Value)
    requires Clean(n) && (node.Arr? || node.Obj?)
    ensures node.Arr? ==> ParseMap(cfg, n, ns, FieldNode(c, node)) == ParseUnion(cfg, n, ns, c.name, node.elems)
    ensures node.Obj? ==>
              var inner := ParseMap(cfg, n, ns, node);
              ParseMap(cfg, n, ns, FieldNode(c, node)) ==
              if inner.Failed? then Failed else Parsed(inner.c.(name := c.name), inner.names)
  {
    var v := FieldNode(c, node);
    FieldFacts(c, node);
    assert v.StrAt("type") == "";
    assert AssignFullName(ns, v) == Assigned("", "", ns);
    assert ParseMap(cfg, n, ns, v) == ParseBody(cfg, n, ns, v);
  }

  /** Putting the field's name on what was read loses nothing. */
  lemma NameBack(c: Common, inner: Common)
    requires inner.name == ToldInner(c, c.name).name
    ensures inner.(name := c.name) == ToldInner(c, c.name).(name := c.name) <==> inner == ToldInner(c, c.name)
  {
  }

  lemma OptionalParse(cfg: Config, n: Names, ns: string, name: string, inner: Value)
    requires Clean(n) && inner != Value.Null
    ensures var r := ParseUnion(cfg, n, ns, name, [Str("null"), inner]);
            if inner == Str("null") then r.Parsed? && r.names == n && r.c.typ == Union
            else
              var ref := ParseRef(cfg, n, ns, inner);
              r == if ref.Failed? then Failed
                   else Parsed(ref.c.(optional := true, name := if name != "" then name else ref.c.name), ref.names)
  {
    if inner == Str("null") {
      NullTwice(cfg, n, ns);
    }
  }

  lemma {:induction false} OptionalFieldIff(cfg: Config, n: Names, ns: string, c: Common)
    requires c.optional && EmitNode(c, c.name, "", false).Some? && Clean(n) && Ordinary(c, c.name)
    ensures var r := ParseUnion(cfg, n, ns, c.name, EmitNode(c, c.name, "", false).value.elems);
            && (r.Parsed? ==> Clean(r.names))
            && (GivesBack(r, ToldField(c)) <==> Good(cfg, c))
    decreases c, 4
  {
    var inner := EmitInner(c, c.name, "", false).value;
    AvroRoundTrip.InnerIsUnion(c, c.name, "", false);
    EmittedNotNil(c, c.name);
    OptionalParse(cfg, n, ns, c.name, inner);
    GoodOptional(cfg, c);
    if c.typ != CommonType.Null {
      InnerRefIff(cfg, n, ns, c, c.name);
      OptionalBackIff(cfg, c, ParseRef(cfg, n, ns, inner));
    } else {
      assert ToldField(c).typ == CommonType.Null;
    }
  }

  lemma GoodOptional(cfg: Config, c: Common)
    requires c.optional
    ensures Good(cfg, c) <==> c.typ != CommonType.Null && c.typ != Union && Good(cfg, c.(optional := false))
  {
  }

  /** Marking what was read as optional gives back the field exactly when it was read back. */
  lemma OptionalBackIff(cfg: Config, c: Common, ref: Parse)
    requires c.optional && (ref.Parsed? ==> ref.c.name == ToldInner(c, c.name).name && !ref.c.optional)
    ensures ref.Parsed? ==>
              (ref.c.(optional := true, name := if c.name != "" then c.name else ref.c.name) == ToldField(c) <==>
               GivesBack(ref, ToldInner(c, c.name)))
  {
    if ref.Parsed? {
      OptionalBack(c, ref.c);
    }
  }

  lemma EmittedNotNil(c: Common, recordName: string)
    requires EmitInner(c, recordName, "", false).Some?
    ensures EmitInner(c, recordName, "", false).value != Value.Null
  {
    if PlainType(c.typ) {
      PlainEmitted(c, recordName, "", false);
    } else {
      NotAString(c, recordName, "", false);
    }
  }

  lemma OptionalBack(c: Common, inner: Common)
    requires c.optional && inner.name == ToldInner(c, c.name).name
    ensures var name := if c.name != "" then c.name else inner.name;
            inner.(optional := true, name := name) == ToldField(c) && !inner.optional <==> inner == ToldInner(c, c.name)
  {
    AvroRoundTrip.ToldOptional(c, c.name);
  }

  lemma NullTwice(cfg: Config, n: Names, ns: string)
    requires Clean(n)
    ensures ParseRefs(cfg, n, ns, [Str("null"), Str("null")]) == AllParsed([Bare(CommonType.Null, ""), Bare(CommonType.Null, "")], n)
  {
    var one := [Str("null")];
    var two := [Str("null"), Str("null")];
    LookupKeyword(n, ns, "null");
    assert one[..0] == [] && two[..1] == one;
    assert ParseRefs(cfg, n, ns, one) == AllParsed([] + [Bare(CommonType.Null, "")], n);
  }

  lemma {:induction false} UnionFieldIff(cfg: Config, n: Names, ns: string, c: Common)
    requires !c.optional && c.typ == Union && EmitVariants(c.children).Some? && Clean(n) && Ordinary(c, c.name)
    ensures var r := ParseUnion(cfg, n, ns, c.name, EmitVariants(c.children).value);
            && (r.Parsed? ==> Clean(r.names))
            && (GivesBack(r, ToldField(c)) <==> Good(cfg, c))
    decreases c, 1
  {
    var ts := EmitVariants(c.children).value;
    OtherBranchIff(c.children);
    if NullAndOne(c.children) {
      var i := if IsNull(c.children[0]) then 1 else 0;
      AvroRoundTrip.VariantAt(c.children, i);
      OrdinaryAt(c.children, i);
      RefIff(cfg, n, ns, c.children[i]);
    } else {
      RefsIff(cfg, n, ns, c.children);
    }
  }

  lemma {:induction false} OrdinaryAt(children: seq<Common>, i: nat)
    requires AllOrdinary(children) && i < |children|
    ensures Ordinary(children[i], "")
  {
    if i < |children| - 1 {
      OrdinaryAt(children[..|children| - 1], i);
    }
  }

  lemma OtherBranchIff(children: seq<Common>)
    requires EmitVariants(children).Some?
    ensures var ts := EmitVariants(children).value;
            && |ts| == |children|
            && OtherBranch(ts) == if !NullAndOne(children) then None else Some(if IsNull(children[0]) then ts[1] else ts[0])
  {
    if children != [] {
      AvroRoundTrip.VariantAt(children, 0);
    }
    if |children| == 2 {
      AvroRoundTrip.VariantAt(children, 1);
      forall i | 0 <= i < 2
        ensures EmitVariants(children).value[i] == Str("null") <==> IsNull(children[i])
        ensures EmitVariants(children).value[i] != Value.Null
      {
        AvroRoundTrip.VariantAt(children, i);
        AvroRoundTrip.EmittedIsUnion(children[i], "", "", false);
        EmittedNotNil(children[i], "");
      }
    }
  }

  lemma {:induction false} FieldIff(cfg: Config, n: Names, ns: string, c: Common)
    requires EmitNode(c, c.name, "", false).Some? && Clean(n) && Ordinary(c, c.name)
    ensures var r := ParseMap(cfg, n, ns, FieldNode(c, EmitNode(c, c.name, "", false).value));
            && (r.Parsed? ==> Clean(r.names))
            && (GivesBack(r, ToldField(c)) <==> Good(cfg, c))
    decreases c, 5
  {
    var node := EmitNode(c, c.name, "", false).value;
    AvroRoundTrip.ToldOptional(c, c.name);
    if c.optional {
      FieldParse(cfg, n, ns, c, node);
      OptionalFieldIff(cfg, n, ns, c);
    } else if PlainType(c.typ) {
      PlainEmitted(c, c.name, "", false);
      PlainFieldParse(cfg, n, ns, c, node.s);
    } else if c.typ == Union {
      FieldParse(cfg, n, ns, c, node);
      UnionFieldIff(cfg, n, ns, c);
    } else {
      NotAString(c, c.name, "", false);
      FieldParse(cfg, n, ns, c, node);
      assert c.(optional := false) == c && ToldInner(c, c.name) == AvroRoundTrip.Told(c, c.name);
      ObjectIff(cfg, n, ns, c, c.name, "", false);
      if ParseMap(cfg, n, ns, node).Parsed? {
        NameBack(c, ParseMap(cfg, n, ns, node).c);
      }
    }
  }

  // ----- whole documents

  /** As a branch of a union at the root, which must be emitted as an object. */
  ghost predicate RootBranch(cfg: Config, c: Common) {
    Branch(cfg, c) && !PlainType(c.typ)
  }

  ghost predicate AllRootBranches(cfg: Config, children: seq<Common>) {
    children == [] || (AllRootBranches(cfg, children[..|children| - 1]) && RootBranch(cfg, children[|children| - 1]))
  }

  ghost predicate GoodRoot(cfg: Config, c: Common) {
    !c.optional && if c.typ == Union then AllRootBranches(cfg, c.children) else !PlainType(c.typ) && Good(cfg, c)
  }

  lemma {:induction false} RootBranchesIff(cfg: Config, n: Names, children: seq<Common>)
    requires EmitVariants(children).Some? && Clean(n) && AllOrdinary(children)
    ensures var r := ParseFields(cfg, n, "", EmitVariants(children).value);
            && (r.AllParsed? ==> Clean(r.names))
            && (AllGiveBack(r, AvroRoundTrip.ToldVariants(children)) <==> AllRootBranches(cfg, children))
  {
    if children != [] {
      var init, last := children[..|children| - 1], children[|children| - 1];
      RootBranchesIff(cfg, n, init);
      RootBranchesStep(cfg, n, children);
      var before := ParseFields(cfg, n, "", EmitVariants(init).value);
      if before.AllParsed? {
        RootBranchIff(cfg, before.names, last);
      }
    }
  }

  lemma RootBranchesStep(cfg: Config, n: Names, children: seq<Common>)
    requires children != [] && EmitVariants(children).Some?
    ensures var init, last := children[..|children| - 1], children[|children| - 1];
            var x := EmitNode(last, "", "", false);
            && EmitVariants(init).Some? && x.Some?
            && var before, r := ParseFields(cfg, n, "", EmitVariants(init).value), ParseFields(cfg, n, "", EmitVariants(children).value);
               if before.OneFailed? || !x.value.Obj? then r == OneFailed
               else
                 var ref := ParseRef(cfg, before.names, "", x.value);
                 if ref.Failed? then r == OneFailed
                 else
                   && r == AllParsed(before.cs + [ref.c], ref.names)
                   && (AllGiveBack(r, AvroRoundTrip.ToldVariants(children)) <==>
                       AllGiveBack(before, AvroRoundTrip.ToldVariants(init)) && GivesBack(ref, AvroRoundTrip.Told(last, "")))
  {
    var init, last := children[..|children| - 1], children[|children| - 1];
    var variants := EmitVariants(children).value;
    var x := EmitNode(last, "", "", false).value;
    assert variants[..|variants| - 1] == EmitVariants(init).value && variants[|variants| - 1] == x;
    var before := ParseFields(cfg, n, "", EmitVariants(init).value);
    if before.AllParsed? && x.Obj? && ParseRef(cfg, before.names, "", x).Parsed? {
      AvroRoundTrip.SameEnds(before.cs, ParseRef(cfg, before.names, "", x).c, AvroRoundTrip.ToldVariants(init), AvroRoundTrip.Told(last, ""));
    }
  }

  lemma RootBranchIff(cfg: Config, n: Names, c: Common)
    requires EmitNode(c, "", "", false).Some? && Clean(n) && Ordinary(c, "")
    ensures var x := EmitNode(c, "", "", false).value;
            var r := ParseRef(cfg, n, "", x);
            && (r.Parsed? ==> Clean(r.names))
            && (x.Obj? && GivesBack(r, AvroRoundTrip.Told(c, "")) <==> RootBranch(cfg, c))
  {
    RefIff(cfg, n, "", c);
    if PlainType(c.typ) {
      PlainEmitted(c, "", "", false);
    } else {
      NotAString(c, "", "", false);
    }
  }

  /**
   * The decoder's own reader gives back types, nullability, field names and order, and logical
   * parameters of an emitted schema if and only if: the root is emitted as an object, or is a union of
   * such; the elements of arrays and maps are plain; unions are neither optional nor nested, and not
   * null and one other branch; no optional type is null; and logical types are kept and their
   * parameters accepted.
   */
  lemma {:induction false} RootReadsBackIff(cfg: Config, c: Common, recordName: string, namespace: string)
    requires EmitNode(c, recordName, namespace, true).Some? && Ordinary(c, recordName)
    ensures GivesBack(ParseRoot(cfg, EmitNode(c, recordName, namespace, true).value), AvroRoundTrip.Told(c, recordName)) <==>
            GoodRoot(cfg, c)
  {
    AvroRoundTrip.ToldOptional(c, recordName);
    if c.optional {
      NullFirstFails(cfg, EmitInner(c, recordName, namespace, true).value);
    } else if PlainType(c.typ) {
      PlainEmitted(c, recordName, namespace, true);
    } else if c.typ == Union {
      RootBranchesIff(cfg, NO_NAMES, c.children);
    } else {
      assert c.(optional := false) == c && ToldInner(c, recordName) == AvroRoundTrip.Told(c, recordName);
      ObjectIff(cfg, NO_NAMES, "", c, recordName, namespace, true);
    }
  }

  lemma NullFirstFails(cfg: Config, inner: Value)
    ensures ParseFields(cfg, NO_NAMES, "", [Str("null"), inner]) == OneFailed
  {
    var one := [Str("null")];
    assert one[..0] == [] && [Str("null"), inner][..1] == one;
    assert ParseFields(cfg, NO_NAMES, "", one) == OneFailed;
  }

  /** Why names matter: a record called record is taken for its own placeholder, and loses its fields. */
  lemma {:induction false} RecordNamedRecord(cfg: Config, children: seq<Common>, namespace: string)
    requires children != [] && EmitFields(children).Some?
    ensures var c := Common(Object, "record", false, None, children);
            && EmitNode(c, "", namespace, true).Some?
            && !GivesBack(ParseRoot(cfg, EmitNode(c, "", namespace, true).value), AvroRoundTrip.Told(c, ""))
  {
    var c := Common(Object, "record", false, None, children);
    var v := RecordNode("record", "", namespace, true, EmitFields(children).value);
    RecordNodeFacts("record", "", namespace, true, EmitFields(children).value);
    var a := AssignFullName("", v);
    var hollow := Bare(Object, "record");
    assert Placeholder(v, a.short) == hollow && a.full != "";
    var n, inner := Register(NO_NAMES, a, hollow), a.inner;
    assert Lookup(n, inner, "record") == Some(hollow);
    assert ParseBody(cfg, n, inner, v) == Parsed(hollow, n);
    assert |AvroRoundTrip.ToldFields(children)| > 0;
  }

  // ----- types that are never emitted

  /** No registered name has the given last part. */
  ghost predicate Avoids(n: Names, s: string) {
    forall k :: k in n.types ==> Suffix(k) != s
  }

  lemma LookupAvoided(n: Names, ns: string, s: string)
    requires Avoids(n, s) && '.' !in s
    ensures Lookup(n, ns, s) == None
  {
    SuffixQualified(ns, s);
  }

  lemma PutAvoids(n: Names, key: string, owner: string, c: Common, s: string)
    requires Avoids(n, s) && Suffix(key) != s
    ensures Avoids(PutName(n, key, owner, c), s)
  {
  }

  lemma AssignedAvoids(ns: string, v: Value, s: string)
    requires Suffix(v.StrAt("name")) != s
    ensures var a := AssignFullName(ns, v);
            a.full != "" ==> Suffix(a.full) != s && Suffix(a.short) != s
  {
    var name := v.StrAt("name");
    SuffixHasNoDot(name);
    if '.' !in name {
      SuffixQualified(v.StrAt("namespace"), name);
      SuffixQualified(ns, name);
    }
  }

  lemma RegisterAvoids(n: Names, ns: string, v: Value, c: Common, s: string)
    requires Avoids(n, s) && Suffix(v.StrAt("name")) != s
    ensures Avoids(Register(n, AssignFullName(ns, v), c), s)
  {
    var a := AssignFullName(ns, v);
    AssignedAvoids(ns, v, s);
    if a.full != "" {
      PutAvoids(n, a.full, a.full, c, s);
      PutAvoids(PutName(n, a.full, a.full, c), a.short, a.full, c, s);
    }
  }

  lemma LeafBody(cfg: Config, n: Names, ns: string, v: Value, typ: string)
    requires v.Obj? && "type" in v.entries && v.entries["type"] == Str(typ) && "logicalType" !in v.entries
    requires typ in {"enum", "fixed"} && Avoids(n, typ)
    ensures ParseBody(cfg, n, ns, v) == Parsed(Bare(if typ == "enum" then String else Any, v.StrAt("name")), n)
  {
    assert '.' !in typ;
    LookupAvoided(n, ns, typ);
  }

  /** An enumeration is read as a text, and a fixed as untyped, under their names. */
  lemma NamedLeaf(cfg: Config, v: Value, typ: string)
    requires v.Obj? && "type" in v.entries && v.entries["type"] == Str(typ) && "logicalType" !in v.entries
    requires typ in {"enum", "fixed"} && Suffix(v.StrAt("name")) != typ
    ensures GivesBack(ParseRoot(cfg, v), Bare(if typ == "enum" then String else Any, v.StrAt("name")))
  {
    var a := AssignFullName("", v);
    var c := Placeholder(v, a.short);
    RegisterAvoids(NO_NAMES, "", v, c, typ);
    LeafBody(cfg, Register(NO_NAMES, a, c), if a.full != "" then a.inner else "", v, typ);
  }
}
