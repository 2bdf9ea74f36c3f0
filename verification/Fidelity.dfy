/**
 * A common schema compiled to JSON Schema, and conforming data coerced against it:
 * the result has exactly the declared native types, at every depth.
 */
module Fidelity {
  import opened Json
  import opened CommonSchema
  import opened References
  import opened Coercion
  import opened CoercionMeaning
  import opened JsonSchemaEmission
  import Decimal
  import DecimalPattern

  // ----- which schemas can be expressed

  ghost predicate UnionFree(c: Common) {
    c.typ != Union && forall i :: 0 <= i < |c.children| ==> UnionFree(c.children[i])
  }

  /** Arrays and maps name their element, decimals their parameters, and so on downwards. */
  ghost predicate WellFormed(c: Common) {
    match c.typ
    case Unknown => false
    case Decimal => c.DecimalParams().Some?
    case Array => c.children != [] && WellFormed(c.children[0])
    case Map => c.children != [] && WellFormed(c.children[0])
    case Object => forall i :: 0 <= i < |c.children| ==> WellFormed(c.children[i])
    case Union => forall i :: 0 <= i < |c.children| ==> WellFormed(c.children[i])
    case _ => true
  }

  /** Exactly the well-formed schemas compile. */
  lemma {:induction false} EmitsIff(c: Common)
    ensures Emit(c).Some? <==> WellFormed(c)
    decreases c, 1
  {
    match c.typ
    case Array => if c.children != [] { EmitsIff(c.children[0]); }
    case Map => if c.children != [] { EmitsIff(c.children[0]); }
    case Object => ListEmitsIff(c.children);
    case Union => ListEmitsIff(c.children);
    case _ =>
  }

  lemma {:induction false} ListEmitsIff(children: seq<Common>)
    ensures EmitProperties(children).Some? <==> forall i :: 0 <= i < |children| ==> WellFormed(children[i])
    ensures EmitBranches(children).Some? <==> forall i :: 0 <= i < |children| ==> WellFormed(children[i])
    decreases children, 0
  {
    if children != [] {
      var n := |children| - 1;
      ListEmitsIff(children[..n]);
      EmitsIff(children[n]);
      assert forall i :: 0 <= i < n ==> children[..n][i] == children[i];
    }
  }

  // ----- what data means under a common schema

  /** The child that describes a property: the last one with its name. */
  function ChildFor(children: seq<Common>, k: string): (r: Option<Common>)
    ensures r.Some? ==> r.value in children
  {
    if children == [] then None
    else
      var last := children[|children| - 1];
      if last.name == k then Some(last) else ChildFor(children[..|children| - 1], k)
  }

  /** An integer of 64 bits that is written as one, or that a float64 holds exactly. */
  predicate ExactInteger(ctx: Context, n: NumberText) {
    Integral(n.value) && IsInt64(n.value.Floor) && (n.plainInteger || ctx.nearestFloat(n.value) == Some(n.value))
  }

  /** JSON data conforms to a union-free schema. Null stands for a missing value of any type. */
  ghost predicate Conforms(ctx: Context, c: Common, v: Value)
    decreases c
  {
    v.Null? ||
    match c.typ
    case Int32 => v.Number? && ExactInteger(ctx, v.n)
    case Int64 => v.Number? && ExactInteger(ctx, v.n)
    case Float32 => v.Number? && ctx.nearestFloat(v.n.value).Some?
    case Float64 => v.Number? && ctx.nearestFloat(v.n.value).Some?
    case Boolean => v.Bool?
    case Timestamp => v.Str? && ctx.parseTime(v.s).Some?
    case Array => v.Arr? && c.children != [] && forall i :: 0 <= i < |v.elems| ==> Conforms(ctx, c.children[0], v.elems[i])
    case Map => v.Obj? && c.children != [] && forall k :: k in v.entries ==> Conforms(ctx, c.children[0], v.entries[k])
    case Object =>
      v.Obj? && forall k :: k in v.entries && ChildFor(c.children, k).Some? ==>
                  Conforms(ctx, ChildFor(c.children, k).value, v.entries[k])
    case Any => true
    case Null => false
    case Union => false
    case Unknown => false
    case _ => v.Str?
  }

  /** The native value of conforming data: what the declared types say, read off the common schema. */
  ghost function Native(ctx: Context, c: Common, v: Value): Value
    requires Conforms(ctx, c, v)
    decreases c
  {
    if v.Null? then Value.Null
    else
      match c.typ
      case Int32 => Int(v.n.value.Floor as int64)
      case Int64 => Int(v.n.value.Floor as int64)
      case Float32 => Float(Finite(ctx.nearestFloat(v.n.value).value))
      case Float64 => Float(Finite(ctx.nearestFloat(v.n.value).value))
      case Timestamp => Time(ctx.parseTime(v.s).value)
      case Array => Arr(seq(|v.elems|, i requires 0 <= i < |v.elems| => Native(ctx, c.children[0], v.elems[i])))
      case Map => Obj(map k | k in v.entries :: Native(ctx, c.children[0], v.entries[k]))
      case Object =>
        Obj(map k | k in v.entries ::
          if ChildFor(c.children, k).Some? then Native(ctx, ChildFor(c.children, k).value, v.entries[k])
          else PassThrough(ctx, v.entries[k]))
      case Any => PassThrough(ctx, v)
      case _ => v
  }

  /**
   * out is the native value of the data under the declared types: null for null; integers and
   * times with the value of the text, floats as the nearest float64; arrays and objects item by
   * item, an object's entry by the last child of its name; and what no child describes plain.
   */
  ghost predicate IsNative(ctx: Context, c: Common, v: Value, out: Value)
    decreases c
  {
    if v.Null? then out == Value.Null
    else
      match c.typ
      case Int32 => v.Number? && out.Int? && out.i as int as real == v.n.value
      case Int64 => v.Number? && out.Int? && out.i as int as real == v.n.value
      case Float32 => v.Number? && out.Float? && out.f.Finite? && ctx.nearestFloat(v.n.value) == Some(out.f.value)
      case Float64 => v.Number? && out.Float? && out.f.Finite? && ctx.nearestFloat(v.n.value) == Some(out.f.value)
      case Boolean => v.Bool? && out == v
      case Timestamp => v.Str? && out.Time? && ctx.parseTime(v.s) == Some(out.instant)
      case Array =>
        && c.children != [] && v.Arr? && out.Arr? && |out.elems| == |v.elems|
        && forall i :: 0 <= i < |v.elems| ==> IsNative(ctx, c.children[0], v.elems[i], out.elems[i])
      case Map =>
        && c.children != [] && v.Obj? && out.Obj? && out.entries.Keys == v.entries.Keys
        && forall k :: k in v.entries ==> IsNative(ctx, c.children[0], v.entries[k], out.entries[k])
      case Object =>
        && v.Obj? && out.Obj? && out.entries.Keys == v.entries.Keys
        && forall k :: k in v.entries ==>
             && ((forall i :: 0 <= i < |c.children| ==> c.children[i].name != k) ==> Plain(ctx, v.entries[k], out.entries[k]))
             && (forall i: nat :: LastNamed(c.children, k, i) ==> IsNative(ctx, c.children[i], v.entries[k], out.entries[k]))
      case Any => Plain(ctx, v, out)
      case Null => false
      case Union => false
      case Unknown => false
      case _ => v.Str? && out == v
  }

  lemma {:induction false} ChildIsLast(children: seq<Common>, k: string)
    ensures ChildFor(children, k).None? <==> forall i :: 0 <= i < |children| ==> children[i].name != k
    ensures forall i: nat :: LastNamed(children, k, i) ==> ChildFor(children, k) == Some(children[i])
  {
    if children != [] && children[|children| - 1].name != k {
      var init := children[..|children| - 1];
      ChildIsLast(init, k);
      forall i: nat | LastNamed(children, k, i) ensures LastNamed(init, k, i) && init[i] == children[i] {
      }
      assert forall i :: 0 <= i < |init| ==> init[i] == children[i];
    }
  }

  lemma {:induction false} NativeIs(ctx: Context, c: Common, v: Value)
    requires Conforms(ctx, c, v)
    ensures IsNative(ctx, c, v, Native(ctx, c, v))
    decreases c, 1
  {
    if !v.Null? {
      var out := Native(ctx, c, v);
      match c.typ
      case Array =>
        forall i | 0 <= i < |v.elems| ensures IsNative(ctx, c.children[0], v.elems[i], out.elems[i]) {
          NativeIs(ctx, c.children[0], v.elems[i]);
        }
      case Map =>
        forall k | k in v.entries ensures IsNative(ctx, c.children[0], v.entries[k], out.entries[k]) {
          NativeIs(ctx, c.children[0], v.entries[k]);
        }
      case Object =>
        forall k | k in v.entries ensures EntryNative(ctx, c, v, out, k) {
          NativeEntryIs(ctx, c, v, k);
        }
      case Any => PassThroughIs(ctx, v, out);
      case _ =>
    }
  }

  ghost predicate EntryNative(ctx: Context, c: Common, v: Value, out: Value, k: string)
    requires v.Obj? && out.Obj? && k in v.entries && k in out.entries
  {
    && ((forall i :: 0 <= i < |c.children| ==> c.children[i].name != k) ==> Plain(ctx, v.entries[k], out.entries[k]))
    && (forall i: nat :: LastNamed(c.children, k, i) ==> IsNative(ctx, c.children[i], v.entries[k], out.entries[k]))
  }

  lemma {:induction false} NativeEntryIs(ctx: Context, c: Common, v: Value, k: string)
    requires c.typ == Object && v.Obj? && Conforms(ctx, c, v) && k in v.entries
    ensures EntryNative(ctx, c, v, Native(ctx, c, v), k)
    decreases c, 0
  {
    var out := Native(ctx, c, v).entries[k];
    ChildIsLast(c.children, k);
    NativeEntry(ctx, c, v, k);
    if ChildFor(c.children, k).None? {
      PassThroughIs(ctx, v.entries[k], out);
    }
    forall i: nat | LastNamed(c.children, k, i) ensures IsNative(ctx, c.children[i], v.entries[k], out) {
      NativeIs(ctx, c.children[i], v.entries[k]);
    }
  }

  // ----- the emitted nodes

  /** Compiled union-free schemas use neither references nor combiners nor defaults. */
  lemma PlainNode(c: Common)
    requires Emit(c).Some? && c.typ != Union
    ensures var node := Emit(c).value;
            !IsRef(node) && Combiner(node) == "" && "default" !in node
  {
  }

  lemma {:induction false} PropertyNode(children: seq<Common>, k: string)
    requires EmitProperties(children).Some?
    ensures var props, child := EmitProperties(children).value, ChildFor(children, k);
            (k in props <==> child.Some?) &&
            (child.Some? ==> Emit(child.value).Some? && props[k] == Obj(Emit(child.value).value))
  {
    if children != [] {
      PropertyNode(children[..|children| - 1], k);
    }
  }

  lemma {:induction false} ChildUnionFree(children: seq<Common>, k: string)
    requires ChildFor(children, k).Some? && forall i :: 0 <= i < |children| ==> UnionFree(children[i])
    ensures UnionFree(ChildFor(children, k).value)
  {
    if children[|children| - 1].name != k {
      ChildUnionFree(children[..|children| - 1], k);
    }
  }

  /** Integers that are exact as texts stay exact as native integers. */
  lemma IntegerExact(ctx: Context, n: NumberText)
    requires ExactInteger(ctx, n)
    ensures ToInt64(ctx, Number(n)) == Ok(Int(n.value.Floor as int64))
  {
  }

  /**
   * For an integral number in range the condition is exact: coercion is bit-exact
   * if and only if the number is written as an integer or a float64 holds it.
   */
  lemma IntegerExactIff(ctx: Context, n: NumberText)
    requires Integral(n.value) && IsInt64(n.value.Floor)
    ensures ToInt64(ctx, Number(n)) == Ok(Int(n.value.Floor as int64)) <==> ExactInteger(ctx, n)
  {
  }

  /** An integer that does not survive: written with a fraction, 2^53 + 1 comes out as 2^53. */
  lemma IntegerChanges(ctx: Context)
    requires ctx.nearestFloat(9007199254740993.0) == Some(9007199254740992.0)
    ensures ToInt64(ctx, Number(NumberText("9007199254740993.0", 9007199254740993.0, false))) == Ok(Int(9007199254740992))
  {
  }

  // ----- fidelity

  predicate IsLeaf(c: Common) {
    c.typ != Array && c.typ != Map && c.typ != Object && c.typ != Union
  }

  predicate IsNumeric(c: Common) {
    c.typ == Int32 || c.typ == Int64 || c.typ == Float32 || c.typ == Float64
  }

  lemma NumericIsNative(ctx: Context, c: Common, v: Value, doc: Node, depth: nat)
    requires IsNumeric(c) && Conforms(ctx, c, v) && !v.Null? && depth <= ctx.limit
    ensures Emit(c).Some? && CoerceTyped(ctx, v, Emit(c).value, doc, depth) == Ok(Native(ctx, c, v))
  {
    if c.typ == Int32 || c.typ == Int64 {
      IntegerExact(ctx, v.n);
    }
  }

  lemma OtherLeafIsNative(ctx: Context, c: Common, v: Value, doc: Node, depth: nat)
    requires IsLeaf(c) && !IsNumeric(c) && Conforms(ctx, c, v) && !v.Null? && Emit(c).Some? && depth <= ctx.limit
    ensures CoerceTyped(ctx, v, Emit(c).value, doc, depth) == Ok(Native(ctx, c, v))
  {
  }

  lemma LeafIsNative(ctx: Context, c: Common, v: Value, doc: Node, depth: nat)
    requires IsLeaf(c) && WellFormed(c) && Conforms(ctx, c, v) && depth <= ctx.limit
    ensures Emit(c).Some? && Coerce(ctx, v, Emit(c).value, doc, depth) == Ok(Native(ctx, c, v))
  {
    EmitsIff(c);
    PlainNode(c);
    var node := Emit(c).value;
    assert Coerce(ctx, v, node, doc, depth) == CoerceTyped(ctx, v, node, doc, depth);
    if v.Null? {
    } else if IsNumeric(c) {
      NumericIsNative(ctx, c, v, doc, depth);
    } else {
      OtherLeafIsNative(ctx, c, v, doc, depth);
    }
  }

  /**
   * Coercing conforming data against the compiled schema succeeds and gives exactly
   * the native value, whatever document and depth the node stands in.
   */
  lemma {:induction false} CoercionIsNative(ctx: Context, c: Common, v: Value, doc: Node, depth: nat)
    requires WellFormed(c) && UnionFree(c) && Conforms(ctx, c, v) && depth <= ctx.limit
    ensures Emit(c).Some? && Coerce(ctx, v, Emit(c).value, doc, depth) == Ok(Native(ctx, c, v))
    ensures IsNative(ctx, c, v, Native(ctx, c, v))
    decreases c, 1
  {
    NativeIs(ctx, c, v);
    EmitsIff(c);
    PlainNode(c);
    var node := Emit(c).value;
    if IsLeaf(c) {
      LeafIsNative(ctx, c, v, doc, depth);
    } else if !v.Null? {
      assert Coerce(ctx, v, node, doc, depth) == CoerceTyped(ctx, v, node, doc, depth);
      ContainerIsNative(ctx, c, v, doc, depth);
    }
  }

  lemma {:induction false} ContainerIsNative(ctx: Context, c: Common, v: Value, doc: Node, depth: nat)
    requires WellFormed(c) && UnionFree(c) && !IsLeaf(c) && Conforms(ctx, c, v) && !v.Null? && depth <= ctx.limit
    ensures Emit(c).Some? && CoerceTyped(ctx, v, Emit(c).value, doc, depth) == Ok(Native(ctx, c, v))
    decreases c, 0
  {
    EmitsIff(c);
    match c.typ
    case Array =>
      EmitsIff(c.children[0]);
      forall i | 0 <= i < |v.elems|
        ensures Coerce(ctx, v.elems[i], Emit(c.children[0]).value, doc, depth) == Ok(Native(ctx, c.children[0], v.elems[i]))
      {
        CoercionIsNative(ctx, c.children[0], v.elems[i], doc, depth);
      }
      ArrayNative(ctx, c, v, doc, depth);
    case Map =>
      EmitsIff(c.children[0]);
      forall k | k in v.entries
        ensures Coerce(ctx, v.entries[k], Emit(c.children[0]).value, doc, depth) == Ok(Native(ctx, c.children[0], v.entries[k]))
      {
        CoercionIsNative(ctx, c.children[0], v.entries[k], doc, depth);
      }
      MapNative(ctx, c, v, doc, depth);
    case Object =>
      forall k | k in v.entries && ChildFor(c.children, k).Some? ensures EntryIsNative(ctx, c, v, k, doc, depth) {
        PropertyNode(c.children, k);
        ChildUnionFree(c.children, k);
        EmitsIff(ChildFor(c.children, k).value);
        CoercionIsNative(ctx, ChildFor(c.children, k).value, v.entries[k], doc, depth);
      }
      ObjectNative(ctx, c, v, doc, depth);
  }

  /** A described property of an object is coerced to its native value. */
  ghost predicate EntryIsNative(ctx: Context, c: Common, v: Value, k: string, doc: Node, depth: nat)
    requires c.typ == Object && v.Obj? && Conforms(ctx, c, v) && depth <= ctx.limit
    requires k in v.entries && ChildFor(c.children, k).Some?
  {
    var child := ChildFor(c.children, k).value;
    Emit(child).Some? && Coerce(ctx, v.entries[k], Emit(child).value, doc, depth) == Ok(Native(ctx, child, v.entries[k]))
  }

  lemma ArrayNative(ctx: Context, c: Common, v: Value, doc: Node, depth: nat)
    requires c.typ == Array && v.Arr? && Conforms(ctx, c, v) && depth <= ctx.limit
    requires Emit(c).Some? && Emit(c.children[0]).Some?
    requires forall j :: 0 <= j < |v.elems| ==>
               Coerce(ctx, v.elems[j], Emit(c.children[0]).value, doc, depth) == Ok(Native(ctx, c.children[0], v.elems[j]))
    ensures CoerceTyped(ctx, v, Emit(c).value, doc, depth) == Ok(Native(ctx, c, v))
  {
    assert ActionFor(ctx, Emit(c).value, v) == AsArray;
    ItemsNative(ctx, c, v, doc, depth, 0);
  }

  lemma {:induction false} ItemsNative(ctx: Context, c: Common, v: Value, doc: Node, depth: nat, i: nat)
    requires c.typ == Array && v.Arr? && Conforms(ctx, c, v) && depth <= ctx.limit && i <= |v.elems|
    requires Emit(c).Some? && Emit(c.children[0]).Some?
    requires forall j :: 0 <= j < |v.elems| ==>
               Coerce(ctx, v.elems[j], Emit(c.children[0]).value, doc, depth) == Ok(Native(ctx, c.children[0], v.elems[j]))
    ensures CoerceItems(ctx, v.elems, Emit(c).value, doc, depth, i) == Ok(Arr(Native(ctx, c, v).elems[i..]))
    decreases |v.elems| - i
  {
    var all := Native(ctx, c, v).elems;
    if i < |v.elems| {
      ItemsNative(ctx, c, v, doc, depth, i + 1);
      assert all[i..] == [all[i]] + all[i + 1..];
    }
  }

  /** In the node of a map every entry has the schema of its values. */
  lemma MapNode(ctx: Context, c: Common, v: Value)
    requires c.typ == Map && v.Obj? && c.children != [] && Emit(c).Some? && Emit(c.children[0]).Some?
    ensures var node := Emit(c).value;
            && ActionFor(ctx, node, v) == AsObject && Defaulted(node, v.entries) == {}
            && forall k :: PropertySchema(node, k) == Some(Emit(c.children[0]).value)
  {
  }

  lemma MapNative(ctx: Context, c: Common, v: Value, doc: Node, depth: nat)
    requires c.typ == Map && v.Obj? && Conforms(ctx, c, v) && depth <= ctx.limit
    requires Emit(c).Some? && Emit(c.children[0]).Some?
    requires forall k :: k in v.entries ==>
               Coerce(ctx, v.entries[k], Emit(c.children[0]).value, doc, depth) == Ok(Native(ctx, c.children[0], v.entries[k]))
    ensures CoerceTyped(ctx, v, Emit(c).value, doc, depth) == Ok(Native(ctx, c, v))
  {
    var node := Emit(c).value;
    MapNode(ctx, c, v);
    var present, out := Present(ctx, v.entries, node, doc, depth), Native(ctx, c, v).entries;
    forall k | k in v.entries ensures k in present && present[k] == Ok(out[k]) {
      PropertyIs(ctx, v.entries, node, doc, depth, k);
    }
    GatherAll(present, Absent(ctx, v.entries, node, doc, depth), out);
  }

  lemma NoDefaults(c: Common)
    requires c.typ == Object && Emit(c).Some? && UnionFree(c)
    ensures forall k :: !HasDefault(Emit(c).value, k)
  {
    forall k ensures !HasDefault(Emit(c).value, k) {
      PropertyNode(c.children, k);
      if ChildFor(c.children, k).Some? {
        ChildUnionFree(c.children, k);
        PlainNode(ChildFor(c.children, k).value);
      }
    }
  }

  /** In the node of an object a property has the schema of the child with its name, if there is one. */
  lemma ObjectProperty(c: Common, k: string)
    requires c.typ == Object && Emit(c).Some?
    ensures var child := ChildFor(c.children, k);
            PropertySchema(Emit(c).value, k) == if child.Some? then Emit(child.value) else None
  {
    PropertyNode(c.children, k);
  }

  lemma NativeEntry(ctx: Context, c: Common, v: Value, k: string)
    requires c.typ == Object && v.Obj? && Conforms(ctx, c, v) && k in v.entries
    ensures Native(ctx, c, v).Obj? && k in Native(ctx, c, v).entries
    ensures var child := ChildFor(c.children, k);
            Native(ctx, c, v).entries[k] ==
            if child.Some? then Native(ctx, child.value, v.entries[k]) else PassThrough(ctx, v.entries[k])
  {
  }

  lemma ObjectEntry(ctx: Context, c: Common, v: Value, k: string, doc: Node, depth: nat)
    requires c.typ == Object && v.Obj? && Conforms(ctx, c, v) && depth <= ctx.limit && Emit(c).Some?
    requires k in v.entries && (ChildFor(c.children, k).Some? ==> EntryIsNative(ctx, c, v, k, doc, depth))
    ensures var present := Present(ctx, v.entries, Emit(c).value, doc, depth);
            k in present && present[k] == Ok(Native(ctx, c, v).entries[k])
  {
    PropertyIs(ctx, v.entries, Emit(c).value, doc, depth, k);
    ObjectProperty(c, k);
    NativeEntry(ctx, c, v, k);
  }

  lemma ObjectNative(ctx: Context, c: Common, v: Value, doc: Node, depth: nat)
    requires c.typ == Object && v.Obj? && Conforms(ctx, c, v) && depth <= ctx.limit && Emit(c).Some? && UnionFree(c)
    requires forall k :: k in v.entries && ChildFor(c.children, k).Some? ==> EntryIsNative(ctx, c, v, k, doc, depth)
    ensures CoerceTyped(ctx, v, Emit(c).value, doc, depth) == Ok(Native(ctx, c, v))
  {
    var node := Emit(c).value;
    assert ActionFor(ctx, node, v) == AsObject;
    var present, out := Present(ctx, v.entries, node, doc, depth), Native(ctx, c, v).entries;
    forall k | k in v.entries ensures k in present && present[k] == Ok(out[k]) {
      ObjectEntry(ctx, c, v, k, doc, depth);
    }
    NoDefaults(c);
    GatherAll(present, Absent(ctx, v.entries, node, doc, depth), out);
  }

  lemma GatherAll(present: map<string, Outcome>, absent: map<string, Outcome>, out: map<string, Value>)
    requires absent == map[] && present.Keys == out.Keys && forall k :: k in out ==> present[k] == Ok(out[k])
    ensures Gather(present, absent) == Ok(Obj(out))
  {
    assert Values(present) == out && Values(present) + Values(absent) == out;
  }

  /** The whole message, coerced against the schema document compiled from a common schema, becomes its native value. */
  lemma EndToEnd(ctx: Context, c: Common, v: Value)
    requires WellFormed(c) && UnionFree(c) && Conforms(ctx, c, v)
    ensures Emit(c).Some?
    ensures var r := CoerceMessage(ctx, Emit(c).value, v);
            r.Ok? && IsNative(ctx, c, v, r.v)
  {
    EmitsIff(c);
    CoercionIsNative(ctx, c, v, Emit(c).value, 0);
    NativeIs(ctx, c, v);
  }

  /**
   * A decimal column end to end: the canonical text of a driver's value is matched by
   * the emitted pattern, passes coercion unchanged, and denotes the driver's number.
   */
  lemma DecimalEndToEnd(ctx: Context, c: Common, p: Decimal.Params, rat: string -> Option<real>, text: string)
    requires c.typ == CommonType.Decimal && c.DecimalParams() == Some(p) && Decimal.Valid(p)
    requires Decimal.ReadsDecimals(rat) && Decimal.Canonicalise(rat, p, text).Some?
    ensures var out := Decimal.Canonicalise(rat, p, text).value;
            && Emit(c).Some? && Obj(Emit(c).value).StrAt("pattern") == "^" + DecimalPattern.RegexText(DecimalPattern.Pattern(p)) + "$"
            && DecimalPattern.Matches(DecimalPattern.Pattern(p), out)
            && CoerceMessage(ctx, Emit(c).value, Str(out)) == Ok(Str(out))
            && rat(out) == rat(text)
  {
    DecimalPattern.PatternTextIs(p);
    DecimalPattern.CanonicalisedMatches(rat, p, text);
    Decimal.SameNumber(rat, p, text);
    LeafIsNative(ctx, c, Str(Decimal.Canonicalise(rat, p, text).value), Emit(c).value, 0);
  }
}
