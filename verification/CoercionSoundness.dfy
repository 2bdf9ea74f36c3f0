/** When coercion leaves no undecoded number behind. */
module CoercionSoundness {
  import opened Json
  import opened References
  import opened Coercion
  import opened CoercionMeaning

  /** No number text anywhere in the value. */
  ghost predicate Decoded(v: Value) {
    match v
    case Number(_) => false
    case Arr(xs) => forall i :: 0 <= i < |xs| ==> Decoded(xs[i])
    case Obj(m) => forall k :: k in m ==> Decoded(m[k])
    case _ => true
  }

  ghost predicate HasObject(subs: seq<Value>) {
    exists i :: 0 <= i < |subs| && subs[i].Obj?
  }

  /** Every allOf list that coercion can meet from the node on holds an object. */
  ghost predicate Grounded(c: Context, node: Node, doc: Node, depth: nat)
    requires depth <= c.limit
    decreases c.limit - depth, Obj(node), 1
  {
    var kw := Combiner(node);
    if IsRef(node) then
      depth < c.limit ==>
      var t := c.resolve(node["$ref"].s, doc);
      t.Target? ==> Grounded(c, t.node, t.doc, depth + 1)
    else if kw == "" then
      && (forall k :: PropertySchema(node, k).Some? ==> Grounded(c, PropertySchema(node, k).value, doc, depth))
      && (forall i: nat :: ItemSchema(node, i).Some? ==> Grounded(c, ItemSchema(node, i).value, doc, depth))
    else
      node[kw].Arr? ==>
        GroundedAll(c, node, kw, doc, depth) && (kw == "allOf" ==> HasObject(node[kw].elems))
  }

  ghost predicate GroundedAll(c: Context, node: Node, kw: string, doc: Node, depth: nat)
    requires depth <= c.limit && kw in node && node[kw].Arr?
    decreases c.limit - depth, Obj(node), 0
  {
    var subs := node[kw].elems;
    forall i :: 0 <= i < |subs| && subs[i].Obj? ==> Grounded(c, subs[i].entries, doc, depth)
  }

  lemma {:induction false} PlainDecodes(c: Context, v: Value, out: Value)
    requires Plain(c, v, out)
    ensures Decoded(out)
    decreases v
  {
    if v.Obj? {
      forall k | k in out.entries ensures Decoded(out.entries[k]) {
        PlainDecodes(c, v.entries[k], out.entries[k]);
      }
    } else if v.Arr? {
      forall i | 0 <= i < |out.elems| ensures Decoded(out.elems[i]) {
        PlainDecodes(c, v.elems[i], out.elems[i]);
      }
    }
  }

  /** A native form under a grounded schema holds no number text. */
  lemma {:induction false} FitsDecodes(c: Context, v: Value, node: Node, doc: Node, depth: nat, out: Value)
    requires depth <= c.limit && Grounded(c, node, doc, depth) && Fits(c, v, node, doc, depth, out)
    ensures Decoded(out)
    decreases c.limit - depth, Obj(node), 4
  {
    if IsReference(node) {
      var t := c.resolve(node["$ref"].s, doc);
      FitsDecodes(c, v, t.node, t.doc, depth + 1, out);
    } else {
      var kw := Combiner(node);
      FitsUnfolds(c, v, node, doc, depth, out);
      if kw == "" {
        FitsTypedDecodes(c, v, node, doc, depth, out);
      } else if !node[kw].Arr? {
        PlainDecodes(c, v, out);
      } else if kw == "allOf" {
        assert node["allOf"].elems[0..] == node["allOf"].elems;
        FitsAllOfDecodes(c, v, node, doc, depth, 0, out);
      } else {
        FitsBranchDecodes(c, v, node, kw, doc, depth, 0, out);
      }
    }
  }

  lemma {:induction false} FitsTypedDecodes(c: Context, v: Value, node: Node, doc: Node, depth: nat, out: Value)
    requires depth <= c.limit && FitsTyped(c, v, node, doc, depth, out)
    requires forall k :: PropertySchema(node, k).Some? ==> Grounded(c, PropertySchema(node, k).value, doc, depth)
    requires forall i: nat :: ItemSchema(node, i).Some? ==> Grounded(c, ItemSchema(node, i).value, doc, depth)
    ensures Decoded(out)
    decreases c.limit - depth, Obj(node), 3
  {
    var typ := TypeFor(c, node, v);
    if v.Null? {
    } else if AsksObject(typ, node) {
      FitsObjectDecodes(c, v.entries, node, doc, depth, out.entries);
    } else if AsksArray(typ, node) {
      FitsArrayDecodes(c, v.elems, node, doc, depth, out.elems);
    } else if !(typ in {"integer", "number", "boolean", "string", "null"}) {
      PlainDecodes(c, v, out);
    }
  }

  lemma {:induction false} FitsObjectDecodes(c: Context, m: map<string, Value>, node: Node, doc: Node, depth: nat, out: map<string, Value>)
    requires depth <= c.limit && FitsObject(c, m, node, doc, depth, out)
    requires forall k :: PropertySchema(node, k).Some? ==> Grounded(c, PropertySchema(node, k).value, doc, depth)
    ensures forall k :: k in out ==> Decoded(out[k])
    decreases c.limit - depth, Obj(node), 1
  {
    forall k | k in out ensures Decoded(out[k]) {
      PropertyIsOwn(node, k);
      if k !in m {
        FitsDecodes(c, Own(node, k)["default"], Own(node, k), doc, depth, out[k]);
      } else if PropertySchema(node, k).Some? {
        FitsDecodes(c, m[k], PropertySchema(node, k).value, doc, depth, out[k]);
      } else {
        PlainDecodes(c, m[k], out[k]);
      }
    }
  }

  lemma {:induction false} FitsArrayDecodes(c: Context, xs: seq<Value>, node: Node, doc: Node, depth: nat, out: seq<Value>)
    requires depth <= c.limit && FitsItems(c, xs, node, doc, depth, 0, out)
    requires forall i: nat :: ItemSchema(node, i).Some? ==> Grounded(c, ItemSchema(node, i).value, doc, depth)
    ensures forall i :: 0 <= i < |out| ==> Decoded(out[i])
    decreases c.limit - depth, Obj(node), 1
  {
    forall i | 0 <= i < |out| ensures Decoded(out[i]) {
      ItemIsSlot(node, i);
      assert FitsItem(c, xs[i], node, i, doc, depth, out[i - 0]);
      if ItemSchema(node, i).Some? {
        FitsDecodes(c, xs[i], ItemSchema(node, i).value, doc, depth, out[i]);
      } else {
        PlainDecodes(c, xs[i], out[i]);
      }
    }
  }

  lemma {:induction false} FitsAllOfDecodes(c: Context, v: Value, node: Node, doc: Node, depth: nat, i: nat, out: Value)
    requires depth <= c.limit && "allOf" in node && node["allOf"].Arr? && i <= |node["allOf"].elems|
    requires GroundedAll(c, node, "allOf", doc, depth) && FitsAllOf(c, v, node, doc, depth, i, out)
    requires Decoded(v) || HasObject(node["allOf"].elems[i..])
    ensures Decoded(out)
    decreases c.limit - depth, Obj(node), 1, |node["allOf"].elems| - i
  {
    var subs := node["allOf"].elems;
    if i < |subs| {
      if subs[i].Obj? {
        var mid :| Fits(c, v, subs[i].entries, doc, depth, mid) && FitsAllOf(c, mid, node, doc, depth, i + 1, out);
        FitsDecodes(c, v, subs[i].entries, doc, depth, mid);
        FitsAllOfDecodes(c, mid, node, doc, depth, i + 1, out);
      } else {
        assert HasObject(subs[i..]) ==> HasObject(subs[i + 1..]) by {
          if HasObject(subs[i..]) {
            var j :| 0 <= j < |subs[i..]| && subs[i..][j].Obj?;
            assert subs[i + 1..][j - 1].Obj?;
          }
        }
        FitsAllOfDecodes(c, v, node, doc, depth, i + 1, out);
      }
    }
  }

  lemma {:induction false} FitsBranchDecodes(c: Context, v: Value, node: Node, kw: string, doc: Node, depth: nat, i: nat, out: Value)
    requires depth <= c.limit && kw in node && node[kw].Arr? && i <= |node[kw].elems|
    requires GroundedAll(c, node, kw, doc, depth) && FitsBranch(c, v, node, kw, doc, depth, i, out)
    ensures Decoded(out)
    decreases c.limit - depth, Obj(node), 1, |node[kw].elems| - i
  {
    var subs := node[kw].elems;
    if subs[i].Obj? && Answers(c, v, subs[i].entries, doc, true) {
      FitsDecodes(c, v, subs[i].entries, doc, depth, out);
    } else {
      FitsBranchDecodes(c, v, node, kw, doc, depth, i + 1, out);
    }
  }

  /** Coercing the value fails or leaves no number text. */
  ghost predicate Decodes(c: Context, v: Value, node: Node, doc: Node, depth: nat)
    requires depth <= c.limit
  {
    var r := Coerce(c, v, node, doc, depth);
    r.Ok? ==> Decoded(r.v)
  }

  /** Under a grounded schema no number text survives a successful coercion. */
  lemma NoNumberSurvives(c: Context, v: Value, node: Node, doc: Node, depth: nat)
    requires depth <= c.limit && Grounded(c, node, doc, depth)
    ensures Decodes(c, v, node, doc, depth)
  {
    if Coerce(c, v, node, doc, depth).Ok? {
      var out := Coerce(c, v, node, doc, depth).v;
      CoercesIff(c, v, node, doc, depth, out);
      FitsDecodes(c, v, node, doc, depth, out);
    }
  }

  lemma {:induction false} NoObjectNoChange(c: Context, v: Value, node: Node, doc: Node, depth: nat, i: nat)
    requires depth <= c.limit && "allOf" in node && node["allOf"].Arr? && i <= |node["allOf"].elems|
    requires !HasObject(node["allOf"].elems)
    ensures CoerceAllOf(c, v, node, doc, depth, i) == Ok(v)
    decreases |node["allOf"].elems| - i
  {
    if i < |node["allOf"].elems| {
      NoObjectNoChange(c, v, node, doc, depth, i + 1);
    }
  }

  /**
   * The condition is exact where it bites: an allOf node with grounded members
   * decodes every input it accepts if and only if its list holds an object. A
   * list without one hands the number through untouched.
   */
  lemma AllOfDecodesIff(c: Context, node: Node, doc: Node, depth: nat)
    requires depth <= c.limit && !IsRef(node)
    requires "allOf" in node && node["allOf"].Arr? && GroundedAll(c, node, "allOf", doc, depth)
    ensures (forall v :: Decodes(c, v, node, doc, depth)) <==> HasObject(node["allOf"].elems)
  {
    if HasObject(node["allOf"].elems) {
      forall v ensures Decodes(c, v, node, doc, depth) {
        NoNumberSurvives(c, v, node, doc, depth);
      }
    } else {
      var one := Number(NumberText("1", 1.0, true));
      NoObjectNoChange(c, one, node, doc, depth, 0);
      assert !Decodes(c, one, node, doc, depth);
    }
  }
}
