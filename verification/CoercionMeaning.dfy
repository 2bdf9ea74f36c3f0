/**
 * What coercion is to give, read off the schema keyword by keyword, and that coercion
 * gives exactly this.
 */
module CoercionMeaning {
  import opened Json
  import opened References
  import opened Coercion

  // ----- data without a schema

  /** Untyped data: numbers as the nearest float64, or as their text when out of range; all else as it is, to any depth. */
  ghost predicate Plain(c: Context, v: Value, out: Value) {
    match v
    case Number(t) =>
      if c.nearestFloat(t.value).Some? then out == Float(Finite(c.nearestFloat(t.value).value)) else out == Str(t.text)
    case Arr(xs) => out.Arr? && |out.elems| == |xs| && forall i :: 0 <= i < |xs| ==> Plain(c, xs[i], out.elems[i])
    case Obj(m) => out.Obj? && out.entries.Keys == m.Keys && forall k :: k in m ==> Plain(c, m[k], out.entries[k])
    case _ => out == v
  }

  lemma {:induction false} PassThroughIs(c: Context, v: Value, out: Value)
    ensures Plain(c, v, out) <==> out == PassThrough(c, v)
    decreases v
  {
    match v
    case Arr(xs) =>
      forall i | 0 <= i < |xs| ensures out.Arr? && i < |out.elems| ==> (Plain(c, xs[i], out.elems[i]) <==> out.elems[i] == PassThrough(c, xs[i])) {
        if out.Arr? && i < |out.elems| {
          PassThroughIs(c, xs[i], out.elems[i]);
        }
      }
    case Obj(m) =>
      forall k | k in m ensures out.Obj? && k in out.entries ==> (Plain(c, m[k], out.entries[k]) <==> out.entries[k] == PassThrough(c, m[k])) {
        if out.Obj? && k in out.entries {
          PassThroughIs(c, m[k], out.entries[k]);
        }
      }
      PassThroughEntries(c, m, out);
    case _ =>
  }

  lemma PassThroughEntries(c: Context, m: map<string, Value>, out: Value)
    ensures out == PassThrough(c, Obj(m)) <==>
            out.Obj? && out.entries.Keys == m.Keys && forall k :: k in m ==> out.entries[k] == PassThrough(c, m[k])
  {
    var all := map k | k in m :: PassThrough(c, m[k]);
    assert PassThrough(c, Obj(m)) == Obj(all);
    if out.Obj? && out.entries.Keys == m.Keys && forall k :: k in m ==> out.entries[k] == PassThrough(c, m[k]) {
      assert out.entries == all;
    }
  }

  // ----- the declared type

  /** An entry of a type list that names a type other than null. */
  predicate Named(x: Value) {
    x.Str? && x.s != "" && x.s != "null"
  }

  ghost predicate OnlyNamed(ts: seq<Value>, i: nat) {
    i < |ts| && Named(ts[i]) && forall j :: 0 <= j < |ts| && Named(ts[j]) ==> j == i
  }

  /** A number without a fraction: written as an integer of 64 bits, or nearest to an integral float64. */
  ghost predicate Whole(c: Context, v: Value) {
    match v
    case Number(t) =>
      || (t.plainInteger && -0x8000_0000_0000_0000 <= t.value.Floor < 0x8000_0000_0000_0000)
      || (c.nearestFloat(t.value).Some? && c.nearestFloat(t.value).value.Floor as real == c.nearestFloat(t.value).value)
    case Float(f) => f.Infinite? || (f.Finite? && f.value.Floor as real == f.value)
    case _ => false
  }

  /** The type of a list of several that suits the value: integer before number for whole numbers. */
  ghost function Suited(c: Context, ts: seq<Value>, v: Value): string {
    match v
    case Str(_) => if Str("string") in ts then "string" else ""
    case Bool(_) => if Str("boolean") in ts then "boolean" else ""
    case Obj(_) => if Str("object") in ts then "object" else ""
    case Arr(_) => if Str("array") in ts then "array" else ""
    case Number(_) => SuitedNumber(c, ts, v)
    case Float(_) => SuitedNumber(c, ts, v)
    case _ => ""
  }

  ghost function SuitedNumber(c: Context, ts: seq<Value>, v: Value): string {
    if Str("integer") in ts && (Whole(c, v) || Str("number") !in ts) then "integer"
    else if Str("number") in ts then "number" else ""
  }

  /** The type a value is taken for: the declared one, or of several the one that suits it, "" for none. */
  ghost function TypeFor(c: Context, node: Node, v: Value): string {
    if "type" !in node then ""
    else
      match node["type"]
      case Str(s) => s
      case Arr(ts) =>
        if exists i: nat :: OnlyNamed(ts, i) then
          var i: nat :| OnlyNamed(ts, i);
          ts[i].s
        else Suited(c, ts, v)
      case _ => ""
  }

  lemma {:induction false} NonNullAre(ts: seq<Value>, s: string)
    ensures s in NonNullTypes(ts) <==> s != "" && s != "null" && Str(s) in ts
  {
    if ts != [] {
      NonNullAre(ts[1..], s);
      assert ts == [ts[0]] + ts[1..];
    }
  }

  lemma {:induction false} NoneNamed(ts: seq<Value>)
    ensures NonNullTypes(ts) == [] <==> forall j :: 0 <= j < |ts| ==> !Named(ts[j])
  {
    if ts != [] {
      NoneNamed(ts[1..]);
      assert forall j :: 0 < j < |ts| ==> ts[j] == ts[1..][j - 1];
      assert forall j :: 0 <= j < |ts| - 1 ==> ts[1..][j] == ts[j + 1];
    }
  }

  lemma {:induction false} OneNamed(ts: seq<Value>)
    ensures |NonNullTypes(ts)| == 1 <==> exists i: nat :: OnlyNamed(ts, i)
    ensures forall i: nat :: OnlyNamed(ts, i) ==> NonNullTypes(ts) == [ts[i].s]
  {
    if ts != [] {
      var rest := ts[1..];
      assert forall j :: 0 < j < |ts| ==> ts[j] == rest[j - 1];
      assert forall j :: 0 <= j < |rest| ==> rest[j] == ts[j + 1];
      NoneNamed(rest);
      OneNamed(rest);
      if Named(ts[0]) {
        if NonNullTypes(rest) == [] {
          assert OnlyNamed(ts, 0);
        }
      } else {
        forall i: nat | OnlyNamed(rest, i) ensures OnlyNamed(ts, i + 1) {
        }
        forall i: nat | OnlyNamed(ts, i) ensures i > 0 && OnlyNamed(rest, i - 1) {
        }
      }
    }
  }

  lemma SuitedIs(c: Context, ts: seq<Value>, v: Value)
    ensures MatchType(c, NonNullTypes(ts), v) == Suited(c, ts, v)
  {
    NonNullAre(ts, "string");
    NonNullAre(ts, "boolean");
    NonNullAre(ts, "object");
    NonNullAre(ts, "array");
    NonNullAre(ts, "integer");
    NonNullAre(ts, "number");
  }

  /** The type the code dispatches on. */
  function Chosen(c: Context, node: Node, v: Value): string {
    var types := NodeTypes(node);
    if |types| == 0 then "" else if |types| == 1 then types[0] else MatchType(c, types, v)
  }

  lemma TypeForIs(c: Context, node: Node, v: Value)
    ensures Chosen(c, node, v) == TypeFor(c, node, v)
  {
    if "type" in node && node["type"].Arr? {
      var ts := node["type"].elems;
      OneNamed(ts);
      NoneNamed(ts);
      SuitedIs(c, ts, v);
      if NonNullTypes(ts) == [] {
        NothingSuits(c, ts, v);
      }
    }
  }

  lemma NothingSuits(c: Context, ts: seq<Value>, v: Value)
    requires NonNullTypes(ts) == []
    ensures Suited(c, ts, v) == ""
  {
    SuitedIs(c, ts, v);
  }

  // ----- what the keywords ask for

  /** A property declared with a schema of its own. */
  ghost predicate HasOwn(node: Node, k: string) {
    "properties" in node && node["properties"].Obj? && k in node["properties"].entries && node["properties"].entries[k].Obj?
  }

  ghost function Own(node: Node, k: string): (r: Node)
    requires HasOwn(node, k)
    ensures Obj(r) < Obj(node)
  {
    node["properties"].entries[k].entries
  }

  ghost predicate HasSub(node: Node, key: string) {
    key in node && node[key].Obj?
  }

  ghost function Sub(node: Node, key: string): (r: Node)
    requires HasSub(node, key)
    ensures Obj(r) < Obj(node)
  {
    node[key].entries
  }

  /** A position of a tuple with a schema of its own. */
  ghost predicate HasSlot(node: Node, i: nat) {
    "items" in node && node["items"].Arr? && i < |node["items"].elems| && node["items"].elems[i].Obj?
  }

  ghost function Slot(node: Node, i: nat): (r: Node)
    requires HasSlot(node, i)
    ensures Obj(r) < Obj(node)
  {
    node["items"].elems[i].entries
  }

  ghost predicate IsReference(node: Node) {
    "$ref" in node && node["$ref"].Str?
  }

  /** The validator's answer about the data, against the branch itself or what it refers to. */
  ghost predicate Answers(c: Context, v: Value, sub: Node, doc: Node, answer: bool) {
    var t := if IsReference(sub) then c.resolve(sub["$ref"].s, doc) else Target(sub, doc);
    && t.Target? && c.compile(Obj(t.node)).Some?
    && exists plain :: Plain(c, v, plain) && c.accepts(c.compile(Obj(t.node)).value, plain) == Some(answer)
  }

  lemma AnswersIs(c: Context, v: Value, sub: Node, doc: Node)
    ensures BranchAccepts(c, v, sub, doc) == Yes <==> Answers(c, v, sub, doc, true)
    ensures BranchAccepts(c, v, sub, doc) == No <==> Answers(c, v, sub, doc, false)
  {
    var plain := PassThrough(c, v);
    PassThroughIs(c, v, plain);
    forall out | Plain(c, v, out) ensures out == plain {
      PassThroughIs(c, v, out);
    }
  }

  lemma PropertyIsOwn(node: Node, k: string)
    ensures PropertySchema(node, k) ==
            if HasOwn(node, k) then Some(Own(node, k))
            else if HasSub(node, "additionalProperties") then Some(Sub(node, "additionalProperties")) else None
  {
  }

  lemma DefaultIsOwn(node: Node, m: map<string, Value>, k: string)
    ensures k in Defaulted(node, m) <==> k !in m && HasOwn(node, k) && "default" in Own(node, k)
    ensures k in Defaulted(node, m) ==> DefaultSchema(node, k) == Own(node, k)
  {
  }

  lemma ItemIsSlot(node: Node, i: nat)
    ensures ItemSchema(node, i) ==
            if HasSub(node, "items") then Some(Sub(node, "items")) else if HasSlot(node, i) then Some(Slot(node, i)) else None
  {
  }

  // ----- what a value becomes

  /** The integer a value stands for: exactly, when it is written plainly, and else the float64 nearest to it. */
  ghost predicate IntegerOf(c: Context, v: Value, i: int) {
    match v
    case Number(t) =>
      if t.plainInteger && -0x8000_0000_0000_0000 <= t.value.Floor < 0x8000_0000_0000_0000 then i == t.value.Floor
      else c.nearestFloat(t.value) == Some(i as real)
    case Float(f) => f == Finite(i as real)
    case Int(j) => i == j as int
    case _ => false
  }

  /** The float64 nearest to the number a value stands for. */
  ghost predicate NumberOf(c: Context, v: Value, f: Float64) {
    match v
    case Number(t) => f.Finite? && c.nearestFloat(t.value) == Some(f.value)
    case Float(g) => f == g
    case Int(j) =>
      if f.Finite? then c.nearestFloat(j as int as real) == Some(f.value)
      else c.nearestFloat(j as int as real).None? && f == Infinite(j < 0)
    case _ => false
  }

  ghost predicate FitsString(c: Context, v: Value, node: Node, out: Value) {
    v.Str? &&
    if "format" in node && node["format"] == Str("date-time") then out.Time? && c.parseTime(v.s) == Some(out.instant)
    else out == v
  }

  /**
   * out is the native form of v under the schema node: null stays null, every typed position
   * holds the declared native type with the value of the input, arrays keep their length, objects
   * gain exactly the missing properties that have a default, and what is not typed is plain.
   */
  ghost predicate Fits(c: Context, v: Value, node: Node, doc: Node, depth: nat, out: Value)
    requires depth <= c.limit
    decreases c.limit - depth, Obj(node), 3
  {
    if IsReference(node) then
      depth < c.limit &&
      var t := c.resolve(node["$ref"].s, doc);
      t.Target? && Fits(c, v, t.node, t.doc, depth + 1, out)
    else if "allOf" in node then
      if node["allOf"].Arr? then FitsAllOf(c, v, node, doc, depth, 0, out) else Plain(c, v, out)
    else if "oneOf" in node then
      if node["oneOf"].Arr? then FitsBranch(c, v, node, "oneOf", doc, depth, 0, out) else Plain(c, v, out)
    else if "anyOf" in node then
      if node["anyOf"].Arr? then FitsBranch(c, v, node, "anyOf", doc, depth, 0, out) else Plain(c, v, out)
    else FitsTyped(c, v, node, doc, depth, out)
  }

  /** Data is to be an object, by its type or, without one, by the keywords beside it. */
  ghost predicate AsksObject(typ: string, node: Node) {
    typ == "object" || (typ == "" && "properties" in node)
  }

  ghost predicate AsksArray(typ: string, node: Node) {
    typ == "array" || (typ == "" && "properties" !in node && "items" in node)
  }

  ghost predicate FitsScalar(c: Context, v: Value, node: Node, typ: string, out: Value) {
    if typ == "integer" then out.Int? && IntegerOf(c, v, out.i as int)
    else if typ == "number" then out.Float? && NumberOf(c, v, out.f)
    else if typ == "boolean" then v.Bool? && out == v
    else if typ == "string" then FitsString(c, v, node, out)
    else if typ == "null" then out.Null?
    else Plain(c, v, out)
  }

  ghost predicate FitsTyped(c: Context, v: Value, node: Node, doc: Node, depth: nat, out: Value)
    requires depth <= c.limit
    decreases c.limit - depth, Obj(node), 2
  {
    var typ := TypeFor(c, node, v);
    if v.Null? then out.Null?
    else if AsksObject(typ, node) then v.Obj? && out.Obj? && FitsObject(c, v.entries, node, doc, depth, out.entries)
    else if AsksArray(typ, node) then v.Arr? && out.Arr? && FitsItems(c, v.elems, node, doc, depth, 0, out.elems)
    else FitsScalar(c, v, node, typ, out)
  }

  /** The entries of the data, and those filled in by a default. */
  ghost predicate KeysFit(m: map<string, Value>, node: Node, out: map<string, Value>) {
    forall k :: k in out <==> k in m || (HasOwn(node, k) && "default" in Own(node, k))
  }

  ghost predicate FitsObject(c: Context, m: map<string, Value>, node: Node, doc: Node, depth: nat, out: map<string, Value>)
    requires depth <= c.limit
    decreases c.limit - depth, Obj(node), 1
  {
    && KeysFit(m, node, out)
    && (forall k :: k in m ==> FitsProperty(c, m[k], node, k, doc, depth, out[k]))
    && (forall k :: k in out && k !in m ==> Fits(c, Own(node, k)["default"], Own(node, k), doc, depth, out[k]))
  }

  ghost predicate FitsProperty(c: Context, v: Value, node: Node, k: string, doc: Node, depth: nat, out: Value)
    requires depth <= c.limit
    decreases c.limit - depth, Obj(node), 0
  {
    if HasOwn(node, k) then Fits(c, v, Own(node, k), doc, depth, out)
    else if HasSub(node, "additionalProperties") then Fits(c, v, Sub(node, "additionalProperties"), doc, depth, out)
    else Plain(c, v, out)
  }

  ghost predicate FitsItem(c: Context, v: Value, node: Node, i: nat, doc: Node, depth: nat, out: Value)
    requires depth <= c.limit
    decreases c.limit - depth, Obj(node), 0
  {
    if HasSub(node, "items") then Fits(c, v, Sub(node, "items"), doc, depth, out)
    else if HasSlot(node, i) then Fits(c, v, Slot(node, i), doc, depth, out)
    else Plain(c, v, out)
  }

  /** The items from position i on, out being what becomes of them. */
  ghost predicate FitsItems(c: Context, xs: seq<Value>, node: Node, doc: Node, depth: nat, i: nat, out: seq<Value>)
    requires depth <= c.limit && i <= |xs|
    decreases c.limit - depth, Obj(node), 1
  {
    |out| == |xs| - i && forall j :: i <= j < |xs| ==> FitsItem(c, xs[j], node, j, doc, depth, out[j - i])
  }

  /** Each object of the list, in order, fits what the previous ones made of the value. */
  ghost predicate FitsAllOf(c: Context, v: Value, node: Node, doc: Node, depth: nat, i: nat, out: Value)
    requires depth <= c.limit && "allOf" in node && node["allOf"].Arr? && i <= |node["allOf"].elems|
    decreases c.limit - depth, Obj(node), 1, |node["allOf"].elems| - i
  {
    var subs := node["allOf"].elems;
    if i == |subs| then out == v
    else if !subs[i].Obj? then FitsAllOf(c, v, node, doc, depth, i + 1, out)
    else exists mid :: Fits(c, v, subs[i].entries, doc, depth, mid) && FitsAllOf(c, mid, node, doc, depth, i + 1, out)
  }

  /** From position i on, the first branch that the validator accepts fits; those before it are rejected. */
  ghost predicate FitsBranch(c: Context, v: Value, node: Node, kw: string, doc: Node, depth: nat, i: nat, out: Value)
    requires depth <= c.limit && kw in node && node[kw].Arr? && i <= |node[kw].elems|
    decreases c.limit - depth, Obj(node), 1, |node[kw].elems| - i
  {
    var subs := node[kw].elems;
    && i < |subs|
    && if subs[i].Obj? && Answers(c, v, subs[i].entries, doc, true) then Fits(c, v, subs[i].entries, doc, depth, out)
       else (subs[i].Obj? ==> Answers(c, v, subs[i].entries, doc, false)) && FitsBranch(c, v, node, kw, doc, depth, i + 1, out)
  }

  // ----- coercion gives exactly that

  lemma IntegerIff(c: Context, v: Value, out: Value)
    ensures ToInt64(c, v) == Ok(out) <==> out.Int? && IntegerOf(c, v, out.i as int)
  {
  }

  lemma NumberIff(c: Context, v: Value, out: Value)
    ensures ToFloat64(c, v) == Ok(out) <==> out.Float? && NumberOf(c, v, out.f)
  {
  }

  /** What the code does for a type. */
  lemma ActionIs(c: Context, node: Node, v: Value)
    ensures ActionFor(c, node, v) == ActionOf(TypeFor(c, node, v), node)
    ensures ActionFor(c, node, v) == AsObject <==> AsksObject(TypeFor(c, node, v), node)
    ensures ActionFor(c, node, v) == AsArray <==> AsksArray(TypeFor(c, node, v), node)
  {
    TypeForIs(c, node, v);
  }

  /** The outcome for a value that is neither null nor to be an object or an array. */
  function Scalar(c: Context, v: Value, node: Node, action: Action): Outcome {
    match action
    case AsInteger => ToInt64(c, v)
    case AsNumber => ToFloat64(c, v)
    case AsBoolean => ToBool(v)
    case AsString => ToStr(c, v, node)
    case AsNull => Ok(Null)
    case _ => Ok(PassThrough(c, v))
  }

  lemma ScalarIff(c: Context, v: Value, node: Node, typ: string, out: Value)
    requires !AsksObject(typ, node) && !AsksArray(typ, node)
    ensures Scalar(c, v, node, ActionOf(typ, node)) == Ok(out) <==> FitsScalar(c, v, node, typ, out)
  {
    IntegerIff(c, v, out);
    NumberIff(c, v, out);
    PassThroughIs(c, v, out);
  }

  lemma TypedUnfolds(c: Context, v: Value, node: Node, doc: Node, depth: nat)
    requires depth <= c.limit && !v.Null?
    ensures var action, r := ActionFor(c, node, v), CoerceTyped(c, v, node, doc, depth);
            r == if action == AsObject then if v.Obj? then CoerceObject(c, v.entries, node, doc, depth) else Fail({Mismatch})
                 else if action == AsArray then if v.Arr? then CoerceItems(c, v.elems, node, doc, depth, 0) else Fail({Mismatch})
                 else Scalar(c, v, node, action)
  {
  }

  /** What is asked of a node that is no reference. */
  lemma FitsUnfolds(c: Context, v: Value, node: Node, doc: Node, depth: nat, out: Value)
    requires depth <= c.limit && !IsReference(node)
    ensures var kw := Combiner(node);
            Fits(c, v, node, doc, depth, out) <==>
            if kw == "" then FitsTyped(c, v, node, doc, depth, out)
            else if !node[kw].Arr? then Plain(c, v, out)
            else if kw == "allOf" then FitsAllOf(c, v, node, doc, depth, 0, out)
            else FitsBranch(c, v, node, kw, doc, depth, 0, out)
  {
  }

  /** Coercion succeeds with a value exactly when that value is the native form of the data. */
  lemma {:induction false} CoercesIff(c: Context, v: Value, node: Node, doc: Node, depth: nat, out: Value)
    requires depth <= c.limit
    ensures Coerce(c, v, node, doc, depth) == Ok(out) <==> Fits(c, v, node, doc, depth, out)
    decreases c.limit - depth, Obj(node), 4
  {
    if IsReference(node) {
      var t := c.resolve(node["$ref"].s, doc);
      if depth < c.limit && t.Target? {
        CoercesIff(c, v, t.node, t.doc, depth + 1, out);
      }
    } else {
      FitsUnfolds(c, v, node, doc, depth, out);
      UnreferredIff(c, v, node, doc, depth, out);
    }
  }

  lemma {:induction false} UnreferredIff(c: Context, v: Value, node: Node, doc: Node, depth: nat, out: Value)
    requires depth <= c.limit && !IsReference(node)
    ensures var kw := Combiner(node);
            Coerce(c, v, node, doc, depth) == Ok(out) <==>
            if kw == "" then FitsTyped(c, v, node, doc, depth, out)
            else if !node[kw].Arr? then Plain(c, v, out)
            else if kw == "allOf" then FitsAllOf(c, v, node, doc, depth, 0, out)
            else FitsBranch(c, v, node, kw, doc, depth, 0, out)
    decreases c.limit - depth, Obj(node), 3
  {
    var kw := Combiner(node);
    if kw == "" {
      TypedIff(c, v, node, doc, depth, out);
    } else if !node[kw].Arr? {
      PassThroughIs(c, v, out);
    } else if kw == "allOf" {
      AllOfIff(c, v, node, doc, depth, 0, out);
    } else {
      BranchIff(c, v, node, kw, doc, depth, 0, out);
    }
  }

  lemma {:induction false} TypedIff(c: Context, v: Value, node: Node, doc: Node, depth: nat, out: Value)
    requires depth <= c.limit
    ensures CoerceTyped(c, v, node, doc, depth) == Ok(out) <==> FitsTyped(c, v, node, doc, depth, out)
    decreases c.limit - depth, Obj(node), 2
  {
    if !v.Null? {
      var typ := TypeFor(c, node, v);
      ActionIs(c, node, v);
      TypedUnfolds(c, v, node, doc, depth);
      if AsksObject(typ, node) {
        if v.Obj? {
          ObjectOutcome(c, v.entries, node, doc, depth);
          if out.Obj? {
            ObjectIff(c, v.entries, node, doc, depth, out.entries);
          }
        }
      } else if AsksArray(typ, node) {
        if v.Arr? && out.Arr? {
          ItemsIff(c, v.elems, node, doc, depth, 0, out.elems);
        }
      } else {
        ScalarIff(c, v, node, typ, out);
      }
    }
  }

  lemma ObjectOutcome(c: Context, m: map<string, Value>, node: Node, doc: Node, depth: nat)
    requires depth <= c.limit
    ensures CoerceObject(c, m, node, doc, depth).Ok? ==> CoerceObject(c, m, node, doc, depth).v.Obj?
  {
  }

  lemma {:induction false} PropertyIff(c: Context, v: Value, node: Node, k: string, doc: Node, depth: nat, out: Value)
    requires depth <= c.limit
    ensures CoerceProperty(c, v, node, k, doc, depth) == Ok(out) <==> FitsProperty(c, v, node, k, doc, depth, out)
    decreases c.limit - depth, Obj(node), 0
  {
    PropertyIsOwn(node, k);
    if PropertySchema(node, k).Some? {
      CoercesIff(c, v, PropertySchema(node, k).value, doc, depth, out);
    } else {
      PassThroughIs(c, v, out);
    }
  }

  lemma ValuesAre(os: map<string, Outcome>, out: map<string, Value>)
    requires forall k :: k in os ==> os[k].Ok?
    requires forall k :: k in os ==> k in out && os[k] == Ok(out[k])
    ensures Values(os) == map k | k in os :: out[k]
  {
  }

  /** Gathering gives an object exactly when every outcome is its entry. */
  ghost predicate Gathers(present: map<string, Outcome>, absent: map<string, Outcome>, out: map<string, Value>) {
    && out.Keys == present.Keys + absent.Keys
    && (forall k :: k in present ==> present[k] == Ok(out[k]))
    && (forall k :: k in absent ==> absent[k] == Ok(out[k]))
  }

  lemma GatherIff(present: map<string, Outcome>, absent: map<string, Outcome>, out: map<string, Value>)
    requires present.Keys !! absent.Keys
    ensures Gather(present, absent) == Ok(Obj(out)) <==> Gathers(present, absent, out)
  {
    if Gathers(present, absent, out) {
      ValuesAre(present, out);
      ValuesAre(absent, out);
      assert Values(present) + Values(absent) == out;
    }
    if Gather(present, absent) == Ok(Obj(out)) {
      assert out == Values(present) + Values(absent);
    }
  }

  lemma PresentIs(c: Context, m: map<string, Value>, node: Node, doc: Node, depth: nat)
    requires depth <= c.limit
    ensures Present(c, m, node, doc, depth).Keys == m.Keys
    ensures forall k :: k in m ==> Present(c, m, node, doc, depth)[k] == CoerceProperty(c, m[k], node, k, doc, depth)
    ensures Absent(c, m, node, doc, depth).Keys == Defaulted(node, m)
  {
  }

  lemma {:induction false} DefaultIff(c: Context, m: map<string, Value>, node: Node, k: string, doc: Node, depth: nat, out: Value)
    requires depth <= c.limit && k in Defaulted(node, m)
    ensures HasOwn(node, k) && "default" in Own(node, k) && k in Absent(c, m, node, doc, depth)
    ensures Absent(c, m, node, doc, depth)[k] == Ok(out) <==> Fits(c, Own(node, k)["default"], Own(node, k), doc, depth, out)
    decreases c.limit - depth, Obj(node), 0
  {
    DefaultIsOwn(node, m, k);
    DefaultIs(c, m, node, doc, depth, k);
    CoercesIff(c, Own(node, k)["default"], Own(node, k), doc, depth, out);
  }

  /** The outcome for an entry is the entry of out, where out has one. */
  ghost predicate EntryAgrees(c: Context, m: map<string, Value>, node: Node, doc: Node, depth: nat, out: map<string, Value>, k: string)
    requires depth <= c.limit
  {
    k in out ==>
      if k in m then
        && k in Present(c, m, node, doc, depth)
        && (Present(c, m, node, doc, depth)[k] == Ok(out[k]) <==> FitsProperty(c, m[k], node, k, doc, depth, out[k]))
      else if k in Defaulted(node, m) then
        && HasOwn(node, k) && "default" in Own(node, k) && k in Absent(c, m, node, doc, depth)
        && (Absent(c, m, node, doc, depth)[k] == Ok(out[k]) <==> Fits(c, Own(node, k)["default"], Own(node, k), doc, depth, out[k]))
      else true
  }

  lemma KeysIff(m: map<string, Value>, node: Node, out: map<string, Value>)
    ensures out.Keys == m.Keys + Defaulted(node, m) <==> KeysFit(m, node, out)
  {
    forall k ensures k in Defaulted(node, m) <==> k !in m && HasOwn(node, k) && "default" in Own(node, k) {
      DefaultIsOwn(node, m, k);
    }
    if KeysFit(m, node, out) {
      assert forall k :: k in out.Keys <==> k in m.Keys + Defaulted(node, m);
    }
  }

  lemma GathersFits(c: Context, m: map<string, Value>, node: Node, doc: Node, depth: nat, out: map<string, Value>)
    requires depth <= c.limit && forall k :: EntryAgrees(c, m, node, doc, depth, out, k)
    requires Gathers(Present(c, m, node, doc, depth), Absent(c, m, node, doc, depth), out)
    ensures FitsObject(c, m, node, doc, depth, out)
  {
    PresentIs(c, m, node, doc, depth);
    KeysIff(m, node, out);
    forall k | k in m ensures FitsProperty(c, m[k], node, k, doc, depth, out[k]) {
      assert EntryAgrees(c, m, node, doc, depth, out, k);
    }
    forall k | k in out && k !in m ensures Fits(c, Own(node, k)["default"], Own(node, k), doc, depth, out[k]) {
      assert EntryAgrees(c, m, node, doc, depth, out, k);
    }
  }

  lemma FitsGathers(c: Context, m: map<string, Value>, node: Node, doc: Node, depth: nat, out: map<string, Value>)
    requires depth <= c.limit && forall k :: EntryAgrees(c, m, node, doc, depth, out, k)
    requires FitsObject(c, m, node, doc, depth, out)
    ensures Gathers(Present(c, m, node, doc, depth), Absent(c, m, node, doc, depth), out)
  {
    PresentIs(c, m, node, doc, depth);
    KeysIff(m, node, out);
    forall k | k in out ensures EntryAgrees(c, m, node, doc, depth, out, k) {
    }
  }

  lemma {:induction false} ObjectIff(c: Context, m: map<string, Value>, node: Node, doc: Node, depth: nat, out: map<string, Value>)
    requires depth <= c.limit
    ensures CoerceObject(c, m, node, doc, depth) == Ok(Obj(out)) <==> FitsObject(c, m, node, doc, depth, out)
    decreases c.limit - depth, Obj(node), 1
  {
    PresentIs(c, m, node, doc, depth);
    forall k ensures EntryAgrees(c, m, node, doc, depth, out, k) {
      if k in out && k in m {
        PropertyIff(c, m[k], node, k, doc, depth, out[k]);
      } else if k in out && k in Defaulted(node, m) {
        DefaultIff(c, m, node, k, doc, depth, out[k]);
      }
    }
    if Gathers(Present(c, m, node, doc, depth), Absent(c, m, node, doc, depth), out) {
      GathersFits(c, m, node, doc, depth, out);
    }
    if FitsObject(c, m, node, doc, depth, out) {
      FitsGathers(c, m, node, doc, depth, out);
    }
    GatherIff(Present(c, m, node, doc, depth), Absent(c, m, node, doc, depth), out);
  }

  lemma {:induction false} ItemIff(c: Context, v: Value, node: Node, i: nat, doc: Node, depth: nat, out: Value)
    requires depth <= c.limit
    ensures (var s := ItemSchema(node, i); if s.Some? then Coerce(c, v, s.value, doc, depth) else Ok(PassThrough(c, v))) == Ok(out)
            <==> FitsItem(c, v, node, i, doc, depth, out)
    decreases c.limit - depth, Obj(node), 0
  {
    ItemIsSlot(node, i);
    if ItemSchema(node, i).Some? {
      CoercesIff(c, v, ItemSchema(node, i).value, doc, depth, out);
    } else {
      PassThroughIs(c, v, out);
    }
  }

  lemma {:induction false} ItemsIff(c: Context, xs: seq<Value>, node: Node, doc: Node, depth: nat, i: nat, out: seq<Value>)
    requires depth <= c.limit && i <= |xs|
    ensures CoerceItems(c, xs, node, doc, depth, i) == Ok(Arr(out)) <==> FitsItems(c, xs, node, doc, depth, i, out)
    decreases c.limit - depth, Obj(node), 1, |xs| - i
  {
    if i < |xs| && out != [] {
      ItemIff(c, xs[i], node, i, doc, depth, out[0]);
      ItemsIff(c, xs, node, doc, depth, i + 1, out[1..]);
      FitsItemsStep(c, xs, node, doc, depth, i, out);
      assert out == [out[0]] + out[1..];
    }
  }

  lemma FitsItemsStep(c: Context, xs: seq<Value>, node: Node, doc: Node, depth: nat, i: nat, out: seq<Value>)
    requires depth <= c.limit && i < |xs| && out != []
    ensures FitsItems(c, xs, node, doc, depth, i, out) <==>
            FitsItem(c, xs[i], node, i, doc, depth, out[0]) && FitsItems(c, xs, node, doc, depth, i + 1, out[1..])
  {
    if FitsItem(c, xs[i], node, i, doc, depth, out[0]) && FitsItems(c, xs, node, doc, depth, i + 1, out[1..]) {
      forall j | i <= j < |xs| ensures FitsItem(c, xs[j], node, j, doc, depth, out[j - i]) {
        assert j > i ==> out[j - i] == out[1..][j - (i + 1)];
      }
    }
    if FitsItems(c, xs, node, doc, depth, i, out) {
      forall j | i + 1 <= j < |xs| ensures FitsItem(c, xs[j], node, j, doc, depth, out[1..][j - (i + 1)]) {
        assert out[j - i] == out[1..][j - (i + 1)];
      }
    }
  }

  lemma {:induction false} AllOfIff(c: Context, v: Value, node: Node, doc: Node, depth: nat, i: nat, out: Value)
    requires depth <= c.limit && "allOf" in node && node["allOf"].Arr? && i <= |node["allOf"].elems|
    ensures CoerceAllOf(c, v, node, doc, depth, i) == Ok(out) <==> FitsAllOf(c, v, node, doc, depth, i, out)
    decreases c.limit - depth, Obj(node), 1, |node["allOf"].elems| - i
  {
    var subs := node["allOf"].elems;
    if i < |subs| {
      if subs[i].Obj? {
        var r := Coerce(c, v, subs[i].entries, doc, depth);
        forall mid ensures r == Ok(mid) <==> Fits(c, v, subs[i].entries, doc, depth, mid) {
          CoercesIff(c, v, subs[i].entries, doc, depth, mid);
        }
        if r.Ok? {
          AllOfIff(c, r.v, node, doc, depth, i + 1, out);
        }
      } else {
        AllOfIff(c, v, node, doc, depth, i + 1, out);
      }
    }
  }

  lemma {:induction false} BranchIff(c: Context, v: Value, node: Node, kw: string, doc: Node, depth: nat, i: nat, out: Value)
    requires depth <= c.limit && kw in node && node[kw].Arr? && i <= |node[kw].elems|
    ensures CoerceBranch(c, v, node, kw, doc, depth, i) == Ok(out) <==> FitsBranch(c, v, node, kw, doc, depth, i, out)
    decreases c.limit - depth, Obj(node), 1, |node[kw].elems| - i
  {
    var subs := node[kw].elems;
    if i < |subs| {
      BranchIff(c, v, node, kw, doc, depth, i + 1, out);
      if subs[i].Obj? {
        AnswersIs(c, v, subs[i].entries, doc);
        CoercesIff(c, v, subs[i].entries, doc, depth, out);
      }
    }
  }

  /** The whole message is coerced against the root of its own document, no reference followed yet. */
  lemma MessageIff(c: Context, root: Node, v: Value, out: Value)
    ensures CoerceMessage(c, root, v) == Ok(out) <==> Fits(c, v, root, root, 0, out)
  {
    CoercesIff(c, v, root, root, 0, out);
  }
}
