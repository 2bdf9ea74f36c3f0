/**
 * Coercion of decoded JSON data to the native types its JSON Schema declares.
 *
 * The resolution of references (References.ResolveRef) is a parameter, and so is
 * what comes from other libraries: rounding to float64, date-time parsing, and
 * the compilation and validation of oneOf and anyOf branches.
 */
module Coercion {
  import opened Json
  import opened References

  const MAX_DEPTH: nat := 1000

  /** How references are resolved, and what comes from other libraries. */
  datatype Context = Context(
    limit: nat,                                // how many references a chain may have
    resolve: (string, Node) -> Target,         // a $ref within a document
    nearestFloat: real -> Option<real>,        // None when out of range
    parseTime: string -> Option<int>,          // RFC 3339
    compile: Value -> Option<Value>,           // a schema node made ready for validation
    accepts: (Value, Value) -> Option<bool>)   // a compiled schema applied to data

  datatype Error = DepthExceeded | Unresolved | Mismatch | BadSchema | NoBranch

  /** Objects are visited in no fixed order, so a failure carries every error that may be reported. */
  datatype Outcome = Ok(v: Value) | Fail(errors: set<Error>)

  // ----- scalars

  const INT64_LIMIT: int := 0x8000_0000_0000_0000

  predicate IsInt64(i: int) { -INT64_LIMIT <= i < INT64_LIMIT }

  predicate Integral(r: real) { r.Floor as real == r }

  function FloatToInt64(f: Float64): Outcome {
    if !f.Finite? || !Integral(f.value) then Fail({Mismatch})
    else if f.value >= INT64_LIMIT as real || f.value < -INT64_LIMIT as real then Fail({Mismatch})
    else Ok(Int(f.value.Floor as int64))
  }

  /** The number text parses as a decimal integer of 64 bits. */
  predicate ParsesAsInt64(t: NumberText) {
    t.plainInteger && IsInt64(t.value.Floor)
  }

  function ToInt64(c: Context, v: Value): Outcome {
    match v
    case Number(t) =>
      if ParsesAsInt64(t) then Ok(Int(t.value.Floor as int64))
      else
        var f := c.nearestFloat(t.value);
        if f.None? then Fail({Mismatch}) else FloatToInt64(Finite(f.value))
    case Float(f) => FloatToInt64(f)
    case Int(_) => Ok(v)
    case _ => Fail({Mismatch})
  }

  function ToFloat64(c: Context, v: Value): Outcome {
    match v
    case Number(t) =>
      var f := c.nearestFloat(t.value);
      if f.None? then Fail({Mismatch}) else Ok(Float(Finite(f.value)))
    case Float(_) => Ok(v)
    case Int(i) =>
      var f := c.nearestFloat(i as int as real);
      Ok(Float(if f.Some? then Finite(f.value) else Infinite(i < 0)))
    case _ => Fail({Mismatch})
  }

  function ToBool(v: Value): Outcome {
    if v.Bool? then Ok(v) else Fail({Mismatch})
  }

  /** Strings stay strings, except those of format date-time. */
  function ToStr(c: Context, v: Value, node: Node): Outcome {
    if !v.Str? then Fail({Mismatch})
    else if Obj(node).StrAt("format") != "date-time" then Ok(v)
    else
      var t := c.parseTime(v.s);
      if t.None? then Fail({Mismatch}) else Ok(Time(t.value))
  }

  /** Untyped data: numbers become floats, or strings when out of range. */
  function PassThrough(c: Context, v: Value): Value {
    match v
    case Obj(m) => Obj(map k | k in m :: PassThrough(c, m[k]))
    case Arr(xs) => Arr(PassThroughAll(c, xs))
    case Number(t) =>
      var f := c.nearestFloat(t.value);
      if f.Some? then Float(Finite(f.value)) else Str(t.text)
    case _ => v
  }

  function PassThroughAll(c: Context, xs: seq<Value>): (r: seq<Value>)
    ensures |r| == |xs| && forall i :: 0 <= i < |xs| ==> r[i] == PassThrough(c, xs[i])
  {
    if xs == [] then [] else [PassThrough(c, xs[0])] + PassThroughAll(c, xs[1..])
  }

  // ----- what a node asks for

  /** The declared types, "null" left out when type is a list. */
  function NodeTypes(node: Node): seq<string> {
    if "type" !in node then []
    else if node["type"].Str? then [node["type"].s]
    else if node["type"].Arr? then NonNullTypes(node["type"].elems)
    else []
  }

  function NonNullTypes(types: seq<Value>): seq<string> {
    if types == [] then []
    else if types[0].Str? && types[0].s != "null" && types[0].s != "" then [types[0].s] + NonNullTypes(types[1..])
    else NonNullTypes(types[1..])
  }

  predicate IsIntegralNumber(c: Context, v: Value) {
    match v
    case Number(t) =>
      ParsesAsInt64(t) || (c.nearestFloat(t.value).Some? && Integral(c.nearestFloat(t.value).value))
    case Float(f) => f.Infinite? || (f.Finite? && Integral(f.value))
    case _ => false
  }

  /** The type of an ambiguous list that fits the value, or "". */
  function MatchType(c: Context, types: seq<string>, v: Value): string {
    match v
    case Str(_) => if "string" in types then "string" else ""
    case Bool(_) => if "boolean" in types then "boolean" else ""
    case Obj(_) => if "object" in types then "object" else ""
    case Arr(_) => if "array" in types then "array" else ""
    case Number(_) => MatchNumber(c, types, v)
    case Float(_) => MatchNumber(c, types, v)
    case _ => ""
  }

  function MatchNumber(c: Context, types: seq<string>, v: Value): string {
    if "integer" in types && IsIntegralNumber(c, v) then "integer"
    else if "number" in types then "number"
    else if "integer" in types then "integer"
    else ""
  }

  datatype Action = AsInteger | AsNumber | AsBoolean | AsString | AsNull | AsObject | AsArray | Untyped

  function ActionOf(typ: string, node: Node): Action {
    if typ == "integer" then AsInteger
    else if typ == "number" then AsNumber
    else if typ == "boolean" then AsBoolean
    else if typ == "string" then AsString
    else if typ == "null" then AsNull
    else if typ == "object" then AsObject
    else if typ == "array" then AsArray
    else if typ == "" && "properties" in node then AsObject
    else if typ == "" && "items" in node then AsArray
    else Untyped
  }

  /** How a node without $ref and combiners treats a value other than null. */
  function ActionFor(c: Context, node: Node, v: Value): Action {
    var types := NodeTypes(node);
    var typ := if |types| == 0 then "" else if |types| == 1 then types[0] else MatchType(c, types, v);
    ActionOf(typ, node)
  }

  predicate IsRef(node: Node) {
    "$ref" in node && node["$ref"].Str?
  }

  /** The combiner that takes precedence over a node's own type, or "". */
  function Combiner(node: Node): (kw: string)
    ensures kw == "" || kw in node
  {
    if "allOf" in node then "allOf" else if "oneOf" in node then "oneOf" else if "anyOf" in node then "anyOf" else ""
  }

  function ObjectAt(node: Node, k: string): Option<Node> {
    if k in node && node[k].Obj? then Some(node[k].entries) else None
  }

  /** The schema a property is coerced against, None when it is passed through. */
  function PropertySchema(node: Node, k: string): (r: Option<Node>)
    ensures r.Some? ==> Obj(r.value) < Obj(node)
  {
    var props := ObjectAt(node, "properties");
    if props.Some? && ObjectAt(props.value, k).Some? then ObjectAt(props.value, k)
    else ObjectAt(node, "additionalProperties")
  }

  /** The schema of a property absent from the data that has a default. */
  predicate HasDefault(node: Node, k: string) {
    var props := ObjectAt(node, "properties");
    props.Some? && ObjectAt(props.value, k).Some? && "default" in ObjectAt(props.value, k).value
  }

  function DefaultSchema(node: Node, k: string): (r: Node)
    requires HasDefault(node, k)
    ensures Obj(r) < Obj(node) && "default" in r
  {
    ObjectAt(ObjectAt(node, "properties").value, k).value
  }

  /** The properties a default is filled in for. */
  function Defaulted(node: Node, m: map<string, Value>): set<string> {
    var props := ObjectAt(node, "properties");
    if props.None? then {} else set k | k in props.value && k !in m && HasDefault(node, k)
  }

  /** The schema an array element is coerced against, None when it is passed through. */
  function ItemSchema(node: Node, i: nat): (r: Option<Node>)
    ensures r.Some? ==> Obj(r.value) < Obj(node)
  {
    if "items" !in node then None
    else if node["items"].Obj? then Some(node["items"].entries)
    else if node["items"].Arr? && i < |node["items"].elems| && node["items"].elems[i].Obj? then
      Some(node["items"].elems[i].entries)
    else None
  }

  // ----- coercion

  function Values(os: map<string, Outcome>): map<string, Value>
    requires forall k :: k in os ==> os[k].Ok?
  {
    map k | k in os :: os[k].v
  }

  function Errors(os: map<string, Outcome>): set<Error> {
    set k, e | k in os && os[k].Fail? && e in os[k].errors :: e
  }

  function Coerce(c: Context, v: Value, node: Node, doc: Node, depth: nat): Outcome
    requires depth <= c.limit
    decreases c.limit - depth, Obj(node), 4
  {
    if IsRef(node) then
      if depth >= c.limit then Fail({DepthExceeded})
      else
        var t := c.resolve(node["$ref"].s, doc);
        if t.Missing? then Fail({Unresolved}) else Coerce(c, v, t.node, t.doc, depth + 1)
    else
      var kw := Combiner(node);
      if kw == "" then CoerceTyped(c, v, node, doc, depth)
      else if !node[kw].Arr? then Ok(PassThrough(c, v))
      else if kw == "allOf" then CoerceAllOf(c, v, node, doc, depth, 0)
      else CoerceBranch(c, v, node, kw, doc, depth, 0)
  }

  /** Coercion against a node's own type keywords. */
  function CoerceTyped(c: Context, v: Value, node: Node, doc: Node, depth: nat): Outcome
    requires depth <= c.limit
    decreases c.limit - depth, Obj(node), 3
  {
    if v.Null? then Ok(Null)
    else
      match ActionFor(c, node, v)
      case AsInteger => ToInt64(c, v)
      case AsNumber => ToFloat64(c, v)
      case AsBoolean => ToBool(v)
      case AsString => ToStr(c, v, node)
      case AsNull => Ok(Null)
      case AsObject => if v.Obj? then CoerceObject(c, v.entries, node, doc, depth) else Fail({Mismatch})
      case AsArray => if v.Arr? then CoerceItems(c, v.elems, node, doc, depth, 0) else Fail({Mismatch})
      case Untyped => Ok(PassThrough(c, v))
  }

  function CoerceProperty(c: Context, v: Value, node: Node, k: string, doc: Node, depth: nat): Outcome
    requires depth <= c.limit
    decreases c.limit - depth, Obj(node), 0
  {
    var s := PropertySchema(node, k);
    if s.Some? then Coerce(c, v, s.value, doc, depth) else Ok(PassThrough(c, v))
  }

  function CoerceDefault(c: Context, node: Node, k: string, doc: Node, depth: nat): Outcome
    requires depth <= c.limit && HasDefault(node, k)
    decreases c.limit - depth, Obj(node), 0
  {
    Coerce(c, DefaultSchema(node, k)["default"], DefaultSchema(node, k), doc, depth)
  }

  /** The outcome of every property of the data. */
  function Present(c: Context, m: map<string, Value>, node: Node, doc: Node, depth: nat): map<string, Outcome>
    requires depth <= c.limit
    decreases c.limit - depth, Obj(node), 1
  {
    map k | k in m :: CoerceProperty(c, m[k], node, k, doc, depth)
  }

  /** The outcome of every default filled in. */
  function Absent(c: Context, m: map<string, Value>, node: Node, doc: Node, depth: nat): map<string, Outcome>
    requires depth <= c.limit
    decreases c.limit - depth, Obj(node), 1
  {
    map k | k in Defaulted(node, m) :: CoerceDefault(c, node, k, doc, depth)
  }

  /** The object made of two groups of outcomes, the second looked at only if the first has no failure. */
  function Gather(present: map<string, Outcome>, absent: map<string, Outcome>): Outcome {
    if exists k :: k in present && present[k].Fail? then Fail(Errors(present))
    else if exists k :: k in absent && absent[k].Fail? then Fail(Errors(absent))
    else Ok(Obj(Values(present) + Values(absent)))
  }

  function CoerceObject(c: Context, m: map<string, Value>, node: Node, doc: Node, depth: nat): Outcome
    requires depth <= c.limit
    decreases c.limit - depth, Obj(node), 2
  {
    Gather(Present(c, m, node, doc, depth), Absent(c, m, node, doc, depth))
  }

  lemma PropertyIs(c: Context, m: map<string, Value>, node: Node, doc: Node, depth: nat, k: string)
    requires depth <= c.limit && k in m
    ensures k in Present(c, m, node, doc, depth)
    ensures Present(c, m, node, doc, depth)[k] ==
            var s := PropertySchema(node, k);
            if s.Some? then Coerce(c, m[k], s.value, doc, depth) else Ok(PassThrough(c, m[k]))
  {
    assert Present(c, m, node, doc, depth)[k] == CoerceProperty(c, m[k], node, k, doc, depth);
  }

  lemma DefaultIs(c: Context, m: map<string, Value>, node: Node, doc: Node, depth: nat, k: string)
    requires depth <= c.limit && k in Defaulted(node, m)
    ensures k in Absent(c, m, node, doc, depth)
    ensures Absent(c, m, node, doc, depth)[k] ==
            Coerce(c, DefaultSchema(node, k)["default"], DefaultSchema(node, k), doc, depth)
  {
    assert Absent(c, m, node, doc, depth)[k] == CoerceDefault(c, node, k, doc, depth);
  }

  /** Coerces the elements from position i on. */
  function CoerceItems(c: Context, xs: seq<Value>, node: Node, doc: Node, depth: nat, i: nat): (r: Outcome)
    requires depth <= c.limit && i <= |xs|
    ensures r.Ok? ==> r.v.Arr? && |r.v.elems| == |xs| - i
    decreases c.limit - depth, Obj(node), 1, |xs| - i
  {
    if i == |xs| then Ok(Arr([]))
    else
      var s := ItemSchema(node, i);
      var first := if s.Some? then Coerce(c, xs[i], s.value, doc, depth) else Ok(PassThrough(c, xs[i]));
      if first.Fail? then first
      else
        var rest := CoerceItems(c, xs, node, doc, depth, i + 1);
        if rest.Fail? then rest else Ok(Arr([first.v] + rest.v.elems))
  }

  /** Coerces against each object of the list from position i on, one after the other. */
  function CoerceAllOf(c: Context, v: Value, node: Node, doc: Node, depth: nat, i: nat): Outcome
    requires depth <= c.limit && "allOf" in node && node["allOf"].Arr? && i <= |node["allOf"].elems|
    decreases c.limit - depth, Obj(node), 1, |node["allOf"].elems| - i
  {
    var subs := node["allOf"].elems;
    if i == |subs| then Ok(v)
    else if !subs[i].Obj? then CoerceAllOf(c, v, node, doc, depth, i + 1)
    else
      var r := Coerce(c, v, subs[i].entries, doc, depth);
      if r.Fail? then r else CoerceAllOf(c, r.v, node, doc, depth, i + 1)
  }

  /** Whether a branch accepts the value; a branch that is only a reference is looked up first. */
  function BranchAccepts(c: Context, v: Value, sub: Node, doc: Node): Accepts {
    var t := if IsRef(sub) then c.resolve(sub["$ref"].s, doc) else Target(sub, doc);
    if t.Missing? then Broken(Unresolved)
    else
      var compiled := c.compile(Obj(t.node));
      if compiled.None? then Broken(BadSchema)
      else
        var accepted := c.accepts(compiled.value, PassThrough(c, v));
        if accepted.None? then Broken(BadSchema) else if accepted.value then Yes else No
  }

  datatype Accepts = Yes | No | Broken(error: Error)

  /** Coerces against the first branch from position i on that accepts the value. */
  function CoerceBranch(c: Context, v: Value, node: Node, kw: string, doc: Node, depth: nat, i: nat): Outcome
    requires depth <= c.limit && kw in node && node[kw].Arr? && i <= |node[kw].elems|
    decreases c.limit - depth, Obj(node), 1, |node[kw].elems| - i
  {
    var subs := node[kw].elems;
    if i == |subs| then Fail({NoBranch})
    else if !subs[i].Obj? then CoerceBranch(c, v, node, kw, doc, depth, i + 1)
    else
      match BranchAccepts(c, v, subs[i].entries, doc)
      case Broken(e) => Fail({e})
      case Yes => Coerce(c, v, subs[i].entries, doc, depth)
      case No => CoerceBranch(c, v, node, kw, doc, depth, i + 1)
  }

  function CoerceMessage(c: Context, root: Node, v: Value): Outcome {
    Coerce(c, v, root, root, 0)
  }
}
