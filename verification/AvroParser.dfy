/**
 * Reading an Avro schema into a common schema, as the decoder does for its metadata, with unions
 * taken as they are.
 */
module AvroParser {
  import opened Json
  import opened CommonSchema
  import AvroNames
  import Decimal

  /** Whether logical types are kept, and which decimal parameters are accepted. */
  datatype Config = Config(preserve: bool, valid: Decimal.Params -> bool)

  // ----- names

  /** The named types met so far, by full name and by short name, and who owns each key. */
  datatype Names = Names(types: map<string, Common>, owners: map<string, string>)

  const NO_NAMES := Names(map[], map[])

  /** The part of a name after its last dot. */
  function Suffix(name: string): string {
    if '.' !in name then name
    else if name[|name| - 1] == '.' then ""
    else Suffix(name[..|name| - 1]) + [name[|name| - 1]]
  }

  /** Registers a type under a key; a short name claimed by two full names belongs to neither. */
  function PutName(n: Names, key: string, owner: string, c: Common): Names {
    if key == "" then n
    else if key !in n.owners then Names(n.types[key := c], n.owners[key := owner])
    else if n.owners[key] == "" then n
    else if n.owners[key] == owner then Names(n.types[key := c], n.owners)
    else if key == owner then Names(n.types[key := c], n.owners[key := owner])
    else if key == n.owners[key] then n
    else Names(n.types - {key}, n.owners[key := ""])
  }

  /** A full name, its short name, and the namespace inside it. */
  datatype Assigned = Assigned(full: string, short: string, inner: string)

  function AssignFullName(ns: string, v: Value): Assigned {
    var name, space := v.StrAt("name"), v.StrAt("namespace");
    if v.StrAt("type") !in {"record", "enum", "fixed"} || name == "" then Assigned("", "", ns)
    else if '.' in name then Assigned(name, Suffix(name), AvroNames.Prefix(name))
    else if space != "" then Assigned(space + "." + name, name, space)
    else if ns != "" then Assigned(ns + "." + name, name, ns)
    else Assigned(name, name, "")
  }

  function Register(n: Names, a: Assigned, c: Common): Names {
    if a.full == "" then n
    else
      var m := PutName(n, a.full, a.full, c);
      if a.short != a.full then PutName(m, a.short, a.full, c) else m
  }

  function Lookup(n: Names, ns: string, name: string): Option<Common> {
    if '.' !in name && ns != "" && ns + "." + name in n.types then Some(n.types[ns + "." + name])
    else if name in n.types then Some(n.types[name])
    else None
  }

  // ----- types

  function TypeOf(name: string): CommonType {
    match name
    case "record" => Object
    case "null" => CommonType.Null
    case "int" => Int32
    case "long" => Int64
    case "float" => Float32
    case "double" => Float64
    case "boolean" => Boolean
    case "bytes" => ByteArray
    case "string" => String
    case "enum" => String
    case "map" => Map
    case "array" => Array
    case _ => Any
  }

  function Bare(typ: CommonType, name: string): Common {
    Common(typ, name, false, None, [])
  }

  /** What stands for a named type while its definition is being read. */
  function Placeholder(v: Value, short: string): Common {
    Bare(match v.StrAt("type") case "record" => Object case "enum" => String case _ => ByteArray, short)
  }

  function ReadInt32(m: map<string, Value>, k: string): Option<nat> {
    if k in m && m[k].Number? && 0 <= m[k].n.value.Floor < 0x8000_0000 then Some(m[k].n.value.Floor) else None
  }

  function ReadDecimal(cfg: Config, c: Common, m: map<string, Value>): Option<Common> {
    var p, s := ReadInt32(m, "precision"), if "scale" in m then ReadInt32(m, "scale") else Some(0);
    if p.None? || s.None? || !cfg.valid(Decimal.Params(p.value, s.value)) then None
    else Some(c.(typ := CommonType.Decimal, logical := Some(Logical(Some(Decimal.Params(p.value, s.value)), None, None))))
  }

  function AsTimestamp(c: Common, unit: TimeUnit, adjust: bool): Common {
    c.(typ := Timestamp, logical := Some(Logical(None, Some(TimeParams(unit, adjust)), None)))
  }

  function AsTimeOfDay(c: Common, unit: TimeUnit): Common {
    c.(typ := TimeOfDay, logical := Some(Logical(None, None, Some(TimeParams(unit, false)))))
  }

  /** A refined type and whether it is final, or the error of a malformed decimal. */
  datatype Refined = Refined(c: Common, applied: bool) | BadDecimal

  function Refine(cfg: Config, c: Common, v: Value): Refined {
    var logical := v.StrAt("logicalType");
    if !v.Obj? || "logicalType" !in v.entries || !v.entries["logicalType"].Str? then Refined(c, false)
    else if !cfg.preserve && logical != "decimal" then Refined(c, false)
    else if logical == "decimal" then
      if c.typ != ByteArray && c.typ != Any then Refined(c, false)
      else
        var d := ReadDecimal(cfg, c, v.entries);
        if d.None? then BadDecimal else Refined(d.value, true)
    else if logical == "uuid" && c.typ == String then Refined(c.(typ := UUID), true)
    else if logical == "date" && c.typ == Int32 then Refined(c.(typ := Date), true)
    else if logical == "time-millis" && c.typ == Int32 then Refined(AsTimeOfDay(c, Millis), true)
    else if logical == "time-micros" && c.typ == Int64 then Refined(AsTimeOfDay(c, Micros), true)
    else if logical == "duration" && (c.typ == ByteArray || c.typ == Any) then Refined(c.(typ := String), true)
    else if c.typ != Int64 then Refined(c, false)
    else
      match logical
      case "timestamp-millis" => Refined(AsTimestamp(c, Millis, true), true)
      case "timestamp-micros" => Refined(AsTimestamp(c, Micros, true), true)
      case "timestamp-nanos" => Refined(AsTimestamp(c, Nanos, true), true)
      case "local-timestamp-millis" => Refined(AsTimestamp(c, Millis, false), true)
      case "local-timestamp-micros" => Refined(AsTimestamp(c, Micros, false), true)
      case "local-timestamp-nanos" => Refined(AsTimestamp(c, Nanos, false), true)
      case _ => Refined(c, false)
  }

  // ----- nodes

  datatype Parse = Parsed(c: Common, names: Names) | Failed
  datatype Parses = AllParsed(cs: seq<Common>, names: Names) | OneFailed

  /** An object: registers the name it defines, reads its body, and registers what it found. */
  function ParseMap(cfg: Config, n: Names, ns: string, v: Value): Parse
    requires v.Obj?
    decreases v, 2
  {
    var a := AssignFullName(ns, v);
    var r := ParseBody(cfg, Register(n, a, Placeholder(v, a.short)), if a.full != "" then a.inner else ns, v);
    if r.Failed? then Failed else Parsed(r.c, Register(r.names, a, r.c))
  }

  function ParseBody(cfg: Config, n: Names, ns: string, v: Value): Parse
    requires v.Obj?
    decreases v, 1
  {
    var name := v.StrAt("name");
    if "type" !in v.entries then Failed
    else
      match v.entries["type"]
      case Arr(ts) =>
        var r := ParseUnion(cfg, n, ns, name, ts);
        if r.Failed? then Failed
        else
          var refined := Refine(cfg, r.c, v);
          if refined.BadDecimal? then Failed else Parsed(refined.c, r.names)
      case Str(t) =>
        var known := Lookup(n, ns, t);
        if known.Some? then Parsed(if name != "" then known.value.(name := name) else known.value, n)
        else
          var refined := Refine(cfg, Bare(TypeOf(t), name), v);
          if refined.BadDecimal? then Failed
          else if refined.applied then Parsed(refined.c, n)
          else ParseContainer(cfg, n, ns, refined.c, v)
      case Obj(_) =>
        var r := ParseMap(cfg, n, ns, v.entries["type"]);
        if r.Failed? then Failed
        else if "name" in v.entries && v.entries["name"].Str? then Parsed(r.c.(name := name), r.names)
        else r
      case _ => Failed
  }

  /** Elements of arrays and maps are plain type names; fields are objects. */
  function ParseContainer(cfg: Config, n: Names, ns: string, c: Common, v: Value): Parse
    requires v.Obj?
    decreases v, 0
  {
    match c.typ
    case Map => ParseElement(n, c, v, "values")
    case Array => ParseElement(n, c, v, "items")
    case Object =>
      if "fields" !in v.entries || v.entries["fields"] == Value.Null then Parsed(c, n)
      else if !v.entries["fields"].Arr? then Failed
      else
        var fields := ParseFields(cfg, n, ns, v.entries["fields"].elems);
        if fields.OneFailed? then Failed else Parsed(c.(children := fields.cs), fields.names)
    case _ => Parsed(c, n)
  }

  function ParseElement(n: Names, c: Common, v: Value, key: string): Parse
    requires v.Obj?
  {
    if key in v.entries && v.entries[key].Str? then Parsed(c.(children := [Bare(TypeOf(v.entries[key].s), "")]), n)
    else Failed
  }

  function ParseFields(cfg: Config, n: Names, ns: string, fields: seq<Value>): Parses
    decreases fields, 0
  {
    if fields == [] then AllParsed([], n)
    else
      var last := fields[|fields| - 1];
      var init := ParseFields(cfg, n, ns, fields[..|fields| - 1]);
      if init.OneFailed? || !last.Obj? then OneFailed
      else
        var r := ParseMap(cfg, init.names, ns, last);
        if r.Failed? then OneFailed else AllParsed(init.cs + [r.c], r.names)
  }

  /** The other branch of a union of null and one other, in either order. */
  function OtherBranch(ts: seq<Value>): Option<Value> {
    if |ts| != 2 then None
    else if ts[0] == Str("null") || ts[0] == Value.Null then
      if ts[1] == Str("null") || ts[1] == Value.Null then None else Some(ts[1])
    else if ts[1] == Str("null") then Some(ts[0]) else None
  }

  function ParseUnion(cfg: Config, n: Names, ns: string, name: string, ts: seq<Value>): Parse
    decreases ts, 1
  {
    var other := OtherBranch(ts);
    if other.Some? then
      var r := ParseRef(cfg, n, ns, other.value);
      if r.Failed? then Failed
      else Parsed(r.c.(optional := true, name := if name != "" then name else r.c.name), r.names)
    else
      var branches := ParseRefs(cfg, n, ns, ts);
      if branches.OneFailed? then Failed else Parsed(Bare(Union, name).(children := branches.cs), branches.names)
  }

  function ParseRef(cfg: Config, n: Names, ns: string, v: Value): Parse
    decreases v, 3
  {
    match v
    case Str(s) =>
      var known := Lookup(n, ns, s);
      Parsed(if known.Some? then known.value else Bare(TypeOf(s), ""), n)
    case Obj(_) => ParseMap(cfg, n, ns, v)
    case _ => Failed
  }

  function ParseRefs(cfg: Config, n: Names, ns: string, vs: seq<Value>): Parses
    decreases vs, 0
  {
    if vs == [] then AllParsed([], n)
    else
      var init := ParseRefs(cfg, n, ns, vs[..|vs| - 1]);
      if init.OneFailed? then OneFailed
      else
        var r := ParseRef(cfg, init.names, ns, vs[|vs| - 1]);
        if r.Failed? then OneFailed else AllParsed(init.cs + [r.c], r.names)
  }

  /** A whole document: an object, or a list of objects. */
  function ParseRoot(cfg: Config, v: Value): Parse {
    match v
    case Obj(_) => ParseMap(cfg, NO_NAMES, "", v)
    case Arr(xs) =>
      var branches := ParseFields(cfg, NO_NAMES, "", xs);
      if branches.OneFailed? then Failed else Parsed(Bare(Union, "").(children := branches.cs), branches.names)
    case _ => Failed
  }

  // ----- who owns a name

  /** A claim of a type on a name. */
  datatype Claim = Claim(owner: string, c: Common)

  function PutAll(n: Names, key: string, claims: seq<Claim>): Names {
    if claims == [] then n
    else
      var last := claims[|claims| - 1];
      PutName(PutAll(n, key, claims[..|claims| - 1]), key, last.owner, last.c)
  }

  lemma {:induction false} PutMore(n: Names, key: string, a: seq<Claim>, b: seq<Claim>)
    ensures PutAll(n, key, a + b) == PutAll(PutAll(n, key, a), key, b)
  {
    if b == [] {
      assert a + b == a;
    } else {
      PutMore(n, key, a, b[..|b| - 1]);
      assert (a + b)[..|a + b| - 1] == a + b[..|b| - 1];
    }
  }

  lemma PutOne(n: Names, key: string, claim: Claim)
    ensures PutAll(n, key, [claim]) == PutName(n, key, claim.owner, claim.c)
  {
    assert [claim][..0] == [];
  }

  ghost predicate AllBy(claims: seq<Claim>, owner: string) {
    forall i :: 0 <= i < |claims| ==> claims[i].owner == owner
  }

  ghost predicate Fresh(n: Names, key: string) {
    key != "" && key !in n.owners && key !in n.types
  }

  ghost predicate Holds(n: Names, key: string, owner: string, c: Common) {
    key in n.owners && n.owners[key] == owner && key in n.types && n.types[key] == c
  }

  /** Nobody has the name. */
  ghost predicate Ambiguous(n: Names, key: string) {
    key in n.owners && n.owners[key] == "" && key !in n.types
  }

  /** A name that one type alone claims is that type's, as last claimed. */
  lemma {:induction false} OneOwner(n: Names, key: string, claims: seq<Claim>, owner: string)
    requires Fresh(n, key) && claims != [] && AllBy(claims, owner) && owner != ""
    ensures Holds(PutAll(n, key, claims), key, owner, claims[|claims| - 1].c)
  {
    if |claims| > 1 {
      OneOwner(n, key, claims[..|claims| - 1], owner);
    } else {
      assert claims[..0] == [];
    }
  }

  /** The last claim by the full name itself, or what was there before. */
  ghost function LastFull(key: string, claims: seq<Claim>, c: Common): Common {
    if claims == [] then c
    else if claims[|claims| - 1].owner == key then claims[|claims| - 1].c
    else LastFull(key, claims[..|claims| - 1], c)
  }

  lemma {:induction false} FullNameStays(n: Names, key: string, claims: seq<Claim>, c: Common)
    requires key != "" && Holds(n, key, key, c)
    ensures Holds(PutAll(n, key, claims), key, key, LastFull(key, claims, c))
  {
    if claims != [] {
      FullNameStays(n, key, claims[..|claims| - 1], c);
    }
  }

  lemma {:induction false} AmbiguousStays(n: Names, key: string, claims: seq<Claim>)
    requires key != "" && Ambiguous(n, key)
    ensures Ambiguous(PutAll(n, key, claims), key)
  {
    if claims != [] {
      AmbiguousStays(n, key, claims[..|claims| - 1]);
    }
  }

  /** A type whose full name it is takes a name from the one type that had it as a short name, and keeps it. */
  lemma FullNameWins(n: Names, key: string, before: seq<Claim>, owner: string, full: Common, after: seq<Claim>)
    requires Fresh(n, key) && AllBy(before, owner) && owner != ""
    ensures Holds(PutAll(n, key, before + [Claim(key, full)] + after), key, key, LastFull(key, after, full))
  {
    var m, claim := PutAll(n, key, before), Claim(key, full);
    if before != [] {
      OneOwner(n, key, before, owner);
    }
    PutMore(n, key, before, [claim]);
    PutOne(m, key, claim);
    PutMore(n, key, before + [claim], after);
    FullNameStays(PutAll(n, key, before + [claim]), key, after, full);
  }

  /**
   * A short name claimed by two types belongs to neither, whatever is claimed later: not even the type whose
   * full name it is gets it.
   */
  lemma TwoShortNamesLose(n: Names, key: string, before: seq<Claim>, owner: string, other: Claim, after: seq<Claim>)
    requires Fresh(n, key) && before != [] && AllBy(before, owner) && owner != "" && owner != key
    requires other.owner != owner && other.owner != key
    ensures Ambiguous(PutAll(n, key, before + [other] + after), key)
  {
    OneOwner(n, key, before, owner);
    PutMore(n, key, before, [other]);
    PutOne(PutAll(n, key, before), key, other);
    PutMore(n, key, before + [other], after);
    AmbiguousStays(PutAll(n, key, before + [other]), key, after);
  }

  /** These are all the cases: one owner, a full name after at most one owner, or two short names first. */
  lemma {:induction false} ClaimCases(key: string, claims: seq<Claim>) returns (owner: string, n: nat)
    requires claims != []
    ensures n <= |claims| && AllBy(claims[..n], owner) && (n > 0 ==> owner != key)
    ensures n < |claims| ==> claims[n].owner == key || (n > 0 && claims[n].owner != owner)
  {
    var last := claims[|claims| - 1];
    if |claims| == 1 {
      owner, n := last.owner, if last.owner == key then 0 else 1;
    } else {
      var init := claims[..|claims| - 1];
      owner, n := ClaimCases(key, init);
      assert claims[..n] == init[..n];
      if n == |init| && last.owner == owner {
        n := |claims|;
        assert claims[..n] == init + [last];
      }
    }
  }

  /** Two types of one short name in different namespaces: each is found inside its own, and neither elsewhere by that name. */
  lemma SameShortName(a: string, b: string, other: string, x: string, c: Common, d: Common)
    requires a != "" && b != "" && a != b && other != a && other != b && x != "" && '.' !in x
    ensures var n := Register(Register(NO_NAMES, Assigned(a + "." + x, x, a), c), Assigned(b + "." + x, x, b), d);
            && Lookup(n, a, x) == Some(c) && Lookup(n, b, x) == Some(d) && Lookup(n, other, x) == None
            && Lookup(n, other, a + "." + x) == Some(c) && Lookup(n, other, b + "." + x) == Some(d)
  {
    var p, q := a + "." + x, b + "." + x;
    assert p[|a|] == '.' && q[|b|] == '.' && p != x && q != x;
    Qualified(a, b, x);
    Qualified(other, a, x);
    Qualified(other, b, x);
  }

  lemma Qualified(a: string, b: string, x: string)
    requires a != b
    ensures a + "." + x != b + "." + x
  {
    if |a| == |b| {
      assert (a + "." + x)[..|a|] == a && (b + "." + x)[..|a|] == b;
    }
  }
}
