/** The coercer as it runs: loops over objects and arrays, and a memo of compiled branch schemas. */
module Coercer {
  import opened Json
  import opened References
  import opened Coercion

  datatype Result = Success(v: Value) | Failure(error: Error)

  /** A run agrees with an outcome: the same value, or one of the possible errors. */
  ghost predicate Agrees(r: Result, o: Outcome) {
    if o.Ok? then r == Success(o.v) else r.Failure? && r.error in o.errors
  }

  /** The two groups of an object's outcomes, gathered without a failure. */
  lemma GatherOk(present: map<string, Outcome>, absent: map<string, Outcome>, out: map<string, Value>, more: map<string, Value>)
    requires out.Keys == present.Keys && forall k :: k in present ==> present[k] == Ok(out[k])
    requires more.Keys == absent.Keys && forall k :: k in absent ==> absent[k] == Ok(more[k])
    ensures Gather(present, absent) == Ok(Obj(out + more))
  {
    assert Values(present) == out && Values(absent) == more;
  }

  ghost function Prepend(done: seq<Value>, rest: Outcome): Outcome
    requires rest.Ok? ==> rest.v.Arr?
  {
    if rest.Ok? then Ok(Arr(done + rest.v.elems)) else rest
  }

  function ItemOutcome(c: Context, x: Value, node: Node, doc: Node, depth: nat, i: nat): Outcome
    requires depth <= c.limit
  {
    var s := ItemSchema(node, i);
    if s.Some? then Coerce(c, x, s.value, doc, depth) else Ok(PassThrough(c, x))
  }

  /** After i elements gave out, the outcome of the array hangs on the rest. */
  ghost predicate ItemsDone(c: Context, xs: seq<Value>, node: Node, doc: Node, depth: nat, i: nat, out: seq<Value>) {
    && depth <= c.limit && i <= |xs|
    && CoerceItems(c, xs, node, doc, depth, 0) == Prepend(out, CoerceItems(c, xs, node, doc, depth, i))
  }

  lemma ItemGiven(c: Context, xs: seq<Value>, node: Node, doc: Node, depth: nat, i: nat, out: seq<Value>, r: Result)
    requires ItemsDone(c, xs, node, doc, depth, i, out) && i < |xs|
    requires Agrees(r, ItemOutcome(c, xs[i], node, doc, depth, i))
    ensures if r.Success? then ItemsDone(c, xs, node, doc, depth, i + 1, out + [r.v])
            else Agrees(r, CoerceItems(c, xs, node, doc, depth, 0))
  {
    var all, rest := CoerceItems(c, xs, node, doc, depth, i), CoerceItems(c, xs, node, doc, depth, i + 1);
    if all.Ok? {
      assert out + all.v.elems == out + [all.v.elems[0]] + rest.v.elems;
    }
  }

  class Coercer {
    const c: Context
    var compiled: map<Value, Value>

    /** The memo holds nothing but compilation results. */
    ghost predicate Valid()
      reads this
    {
      forall node :: node in compiled ==> c.compile(node) == Some(compiled[node])
    }

    constructor (refs: map<string, Node>, nearestFloat: real -> Option<real>, parseTime: string -> Option<int>,
                 compile: Value -> Option<Value>, accepts: (Value, Value) -> Option<bool>)
      ensures Valid() && compiled == map[] && c.limit == 1000
      ensures forall ref, doc :: c.resolve(ref, doc) == ResolveRef(refs, ref, doc)
      ensures forall x :: c.nearestFloat(x) == nearestFloat(x)
      ensures forall s :: c.parseTime(s) == parseTime(s)
      ensures forall node :: c.compile(node) == compile(node)
      ensures forall schema, v :: c.accepts(schema, v) == accepts(schema, v)
    {
      c := Context(MAX_DEPTH, (ref, doc) => ResolveRef(refs, ref, doc), nearestFloat, parseTime, compile, accepts);
      compiled := map[];
    }

    /** Branch validation gives the same answer whatever has been compiled before. */
    method BranchAccepts(v: Value, sub: Node, doc: Node) returns (r: Accepts)
      requires Valid()
      modifies this`compiled
      ensures Valid() && old(compiled.Keys) <= compiled.Keys
      ensures r == Coercion.BranchAccepts(c, v, sub, doc)
    {
      var t := if IsRef(sub) then c.resolve(sub["$ref"].s, doc) else Target(sub, doc);
      if t.Missing? {
        return Broken(Unresolved);
      }
      var key := Obj(t.node);
      if key !in compiled {
        var schema := c.compile(key);
        if schema.None? {
          return Broken(BadSchema);
        }
        compiled := compiled[key := schema.value];
      }
      var accepted := c.accepts(compiled[key], PassThrough(c, v));
      r := if accepted.None? then Broken(BadSchema) else if accepted.value then Yes else No;
    }

    method Coerce(v: Value, node: Node, doc: Node, depth: nat) returns (r: Result)
      requires Valid() && depth <= c.limit
      modifies this`compiled
      ensures Valid() && Agrees(r, Coercion.Coerce(c, v, node, doc, depth))
      decreases c.limit - depth, Obj(node), 4
    {
      if IsRef(node) {
        if depth >= c.limit {
          return Failure(DepthExceeded);
        }
        var t := c.resolve(node["$ref"].s, doc);
        if t.Missing? {
          return Failure(Unresolved);
        }
        r := Coerce(v, t.node, t.doc, depth + 1);
        return;
      }
      var kw := Combiner(node);
      if kw == "" {
        r := CoerceTyped(v, node, doc, depth);
      } else if !node[kw].Arr? {
        r := Success(PassThrough(c, v));
      } else if kw == "allOf" {
        r := CoerceAllOf(v, node, doc, depth);
      } else {
        r := CoerceBranch(v, node, kw, doc, depth);
      }
    }

    method CoerceTyped(v: Value, node: Node, doc: Node, depth: nat) returns (r: Result)
      requires Valid() && depth <= c.limit
      modifies this`compiled
      ensures Valid() && Agrees(r, Coercion.CoerceTyped(c, v, node, doc, depth))
      decreases c.limit - depth, Obj(node), 3
    {
      if v.Null? {
        return Success(Null);
      }
      match ActionFor(c, node, v)
      case AsInteger => r := Scalar(ToInt64(c, v));
      case AsNumber => r := Scalar(ToFloat64(c, v));
      case AsBoolean => r := Scalar(ToBool(v));
      case AsString => r := Scalar(ToStr(c, v, node));
      case AsNull => r := Success(Null);
      case AsObject =>
        if v.Obj? {
          r := CoerceObject(v.entries, node, doc, depth);
        } else {
          r := Failure(Mismatch);
        }
      case AsArray =>
        if v.Arr? {
          r := CoerceArray(v.elems, node, doc, depth);
        } else {
          r := Failure(Mismatch);
        }
      case Untyped => r := Success(PassThrough(c, v));
    }

    static function Scalar(o: Outcome): Result {
      if o.Ok? then Success(o.v) else Failure(Mismatch)
    }

    /** Coerces the properties of the data and then fills in defaults, both in any order. */
    method CoerceObject(m: map<string, Value>, node: Node, doc: Node, depth: nat) returns (r: Result)
      requires Valid() && depth <= c.limit
      modifies this`compiled
      ensures Valid() && Agrees(r, Coercion.CoerceObject(c, m, node, doc, depth))
      decreases c.limit - depth, Obj(node), 2
    {
      ghost var present, absent := Present(c, m, node, doc, depth), Absent(c, m, node, doc, depth);
      var out: map<string, Value> := map[];
      var keys := m.Keys;
      while keys != {}
        invariant Valid() && keys <= m.Keys && out.Keys == m.Keys - keys
        invariant forall k :: k in out ==> present[k] == Ok(out[k])
        decreases keys
      {
        var k :| k in keys;
        keys := keys - {k};
        PropertyIs(c, m, node, doc, depth, k);
        var s := PropertySchema(node, k);
        var cv := Success(PassThrough(c, m[k]));
        if s.Some? {
          cv := Coerce(m[k], s.value, doc, depth);
        }
        if cv.Failure? {
          return cv;
        }
        out := out[k := cv.v];
      }
      r := CoerceDefaults(m, out, node, doc, depth);
    }

    method CoerceDefaults(m: map<string, Value>, out: map<string, Value>, node: Node, doc: Node, depth: nat) returns (r: Result)
      requires Valid() && depth <= c.limit
      requires out.Keys == m.Keys && forall k :: k in m ==> Present(c, m, node, doc, depth)[k] == Ok(out[k])
      modifies this`compiled
      ensures Valid() && Agrees(r, Coercion.CoerceObject(c, m, node, doc, depth))
      decreases c.limit - depth, Obj(node), 1
    {
      ghost var present, absent := Present(c, m, node, doc, depth), Absent(c, m, node, doc, depth);
      var more: map<string, Value> := map[];
      var keys := Defaulted(node, m);
      while keys != {}
        invariant Valid() && keys <= absent.Keys && more.Keys == absent.Keys - keys
        invariant forall k :: k in more ==> absent[k] == Ok(more[k])
        decreases keys
      {
        var k :| k in keys;
        keys := keys - {k};
        DefaultIs(c, m, node, doc, depth, k);
        var cv := Coerce(DefaultSchema(node, k)["default"], DefaultSchema(node, k), doc, depth);
        if cv.Failure? {
          return cv;
        }
        more := more[k := cv.v];
      }
      GatherOk(present, absent, out, more);
      r := Success(Obj(out + more));
    }

    method CoerceItem(x: Value, node: Node, doc: Node, depth: nat, i: nat) returns (r: Result)
      requires Valid() && depth <= c.limit
      modifies this`compiled
      ensures Valid() && Agrees(r, ItemOutcome(c, x, node, doc, depth, i))
      decreases c.limit - depth, Obj(node), 0
    {
      r := Success(PassThrough(c, x));
      var s := ItemSchema(node, i);
      if s.Some? {
        r := Coerce(x, s.value, doc, depth);
      }
    }

    method CoerceArray(xs: seq<Value>, node: Node, doc: Node, depth: nat) returns (r: Result)
      requires Valid() && depth <= c.limit
      modifies this`compiled
      ensures Valid() && Agrees(r, CoerceItems(c, xs, node, doc, depth, 0))
      decreases c.limit - depth, Obj(node), 1
    {
      var out: seq<Value> := [];
      for i := 0 to |xs|
        invariant Valid() && ItemsDone(c, xs, node, doc, depth, i, out)
      {
        var cv := CoerceItem(xs[i], node, doc, depth, i);
        ItemGiven(c, xs, node, doc, depth, i, out, cv);
        if cv.Failure? {
          return cv;
        }
        out := out + [cv.v];
      }
      r := Success(Arr(out));
    }

    method CoerceAllOf(v: Value, node: Node, doc: Node, depth: nat) returns (r: Result)
      requires Valid() && depth <= c.limit && "allOf" in node && node["allOf"].Arr?
      modifies this`compiled
      ensures Valid() && Agrees(r, Coercion.CoerceAllOf(c, v, node, doc, depth, 0))
      decreases c.limit - depth, Obj(node), 1
    {
      var subs := node["allOf"].elems;
      var out := v;
      for i := 0 to |subs|
        invariant Valid()
        invariant Coercion.CoerceAllOf(c, v, node, doc, depth, 0) == Coercion.CoerceAllOf(c, out, node, doc, depth, i)
      {
        if subs[i].Obj? {
          var cv := Coerce(out, subs[i].entries, doc, depth);
          if cv.Failure? {
            return cv;
          }
          out := cv.v;
        }
      }
      r := Success(out);
    }

    method CoerceBranch(v: Value, node: Node, kw: string, doc: Node, depth: nat) returns (r: Result)
      requires Valid() && depth <= c.limit && kw in node && node[kw].Arr?
      modifies this`compiled
      ensures Valid() && Agrees(r, Coercion.CoerceBranch(c, v, node, kw, doc, depth, 0))
      decreases c.limit - depth, Obj(node), 1
    {
      var subs := node[kw].elems;
      for i := 0 to |subs|
        invariant Valid()
        invariant Coercion.CoerceBranch(c, v, node, kw, doc, depth, 0) == Coercion.CoerceBranch(c, v, node, kw, doc, depth, i)
      {
        if subs[i].Obj? {
          var a := BranchAccepts(v, subs[i].entries, doc);
          if a.Broken? {
            return Failure(a.error);
          }
          if a.Yes? {
            r := Coerce(v, subs[i].entries, doc, depth);
            return;
          }
        }
      }
      r := Failure(NoBranch);
    }
  }
}
