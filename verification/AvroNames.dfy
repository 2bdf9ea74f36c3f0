/**
 * Names in an Avro document (Avro specification, Names). A name with a dot is a full
 * name. Any other name belongs to the namespace around it, which a named type sets for
 * its parts.
 */
module AvroNames {
  import opened Json
  import opened AvroHydration

  // ----- full names

  const Primitives := {"null", "boolean", "int", "long", "float", "double", "bytes", "string"}

  predicate IsNamedType(v: Value) {
    v.StrAt("type") in {"record", "error", "enum", "fixed"} && v.StrAt("name") != "" && v.StrAt("name") !in Primitives
  }

  function Qualify(ns: string, name: string): string {
    if '.' in name || ns == "" then name else ns + "." + name
  }

  /** The full name that a name at a type position stands for. */
  function Resolve(ns: string, name: string): string {
    if name in Primitives then name else Qualify(ns, name)
  }

  /** The part of a name before its last dot. */
  function Prefix(name: string): string {
    if '.' !in name then ""
    else if name[|name| - 1] == '.' then name[..|name| - 1]
    else Prefix(name[..|name| - 1])
  }

  /** The namespace a named type is in, and which its parts are in. */
  function Inner(v: Value, ns: string): string {
    if !IsNamedType(v) then ns
    else if '.' in v.StrAt("name") then Prefix(v.StrAt("name"))
    else if v.StrAt("namespace") != "" then v.StrAt("namespace")
    else ns
  }

  /** The full name a node defines, if any. */
  function Defined(v: Value, ns: string): set<string> {
    if IsNamedType(v) then {Qualify(Inner(v, ns), v.StrAt("name"))} else {}
  }

  /** Moving the node from one namespace into the other changes no name in it. */
  predicate Alike(v: Value, ns: string, ns': string) {
    ns == ns' || (!v.Str? && Defined(v, ns) == Defined(v, ns') && Inner(v, ns) == Inner(v, ns'))
  }

  /** A definition whose full name is s can stand wherever s is a full name. */
  lemma DefinitionStands(v: Value, s: string, ns: string)
    requires s in Defined(v, "") && Resolve(ns, s) == s
    ensures Alike(v, "", ns) && Defined(v, ns) == {s}
  {
    var name := v.StrAt("name");
    if '.' !in name && v.StrAt("namespace") == "" {
      assert ns == "" || |Qualify(ns, s)| > |s|;
    }
  }

  /** A definition keeps its full name only where that name is a full name. */
  lemma DefinitionMoves(v: Value, s: string, ns: string)
    requires s in Defined(v, "") && s in Defined(v, ns)
    ensures Resolve(ns, s) == s
  {
    var name := v.StrAt("name");
    if '.' !in name {
      if v.StrAt("namespace") == "" {
        assert ns == "" || |Qualify(ns, s)| > |s|;
      } else {
        assert s[|v.StrAt("namespace")|] == '.';
      }
    }
  }

  lemma PlugDefined(v: Value, children: seq<Value>, ns: string)
    requires |children| == |Children(v)|
    ensures Defined(Plug(v, children), ns) == Defined(v, ns) && Inner(Plug(v, children), ns) == Inner(v, ns)
    ensures Plug(v, children).Str? <==> v.Str?
  {
    if v.Obj? {
      var p := Plug(v, children);
      assert p.StrAt("type") == v.StrAt("type") && p.StrAt("name") == v.StrAt("name");
      assert p.StrAt("namespace") == v.StrAt("namespace");
    }
  }

  // ----- reading a document in order

  /**
   * Reads the type positions of a document in pre-order, knowing some full names, and
   * gives the names known afterwards. Fails when one of names is used before a named
   * type has defined it.
   */
  function Read(names: set<string>, node: Value, ns: string, known: set<string>): (r: Option<set<string>>)
    ensures r.Some? ==> known <= r.value
    decreases node, 1
  {
    if node.Str? && Resolve(ns, node.s) in names && Resolve(ns, node.s) !in known then None
    else ReadAll(names, Children(node), Inner(node, ns), known + Defined(node, ns), node)
  }

  function ReadAll(names: set<string>, nodes: seq<Value>, ns: string, known: set<string>, whole: Value)
      : (r: Option<set<string>>)
    requires forall c :: c in nodes ==> c < whole
    ensures r.Some? ==> known <= r.value
    decreases whole, 0, |nodes|
  {
    if nodes == [] then Some(known)
    else
      assert nodes[0] in nodes;
      assert forall c :: c in nodes[1..] ==> c in nodes;
      match Read(names, nodes[0], ns, known)
      case None => None
      case Some(known') => ReadAll(names, nodes[1..], ns, known', whole)
  }

  /** How often a full name is defined at the type positions of a document. */
  function Definitions(node: Value, ns: string, s: string): nat
    decreases node, 1
  {
    (if s in Defined(node, ns) then 1 else 0) + DefinitionsIn(Children(node), Inner(node, ns), s, node)
  }

  function DefinitionsIn(nodes: seq<Value>, ns: string, s: string, whole: Value): nat
    requires forall c :: c in nodes ==> c < whole
    decreases whole, 0, |nodes|
  {
    if nodes == [] then 0
    else
      assert nodes[0] in nodes;
      assert forall c :: c in nodes[1..] ==> c in nodes;
      Definitions(nodes[0], ns, s) + DefinitionsIn(nodes[1..], ns, s, whole)
  }

  /** What a reader knows in the end it knew before, or the document defines. */
  lemma {:induction false} KnownIsDefined(names: set<string>, node: Value, ns: string, known: set<string>, s: string)
    requires Read(names, node, ns, known).Some? && s in Read(names, node, ns, known).value
    ensures s in known || Definitions(node, ns, s) > 0
    decreases node, 1
  {
    KnownIsDefinedIn(names, Children(node), Inner(node, ns), known + Defined(node, ns), node, s);
  }

  lemma {:induction false} KnownIsDefinedIn(names: set<string>, nodes: seq<Value>, ns: string, known: set<string>,
                                            whole: Value, s: string)
    requires forall c :: c in nodes ==> c < whole
    requires ReadAll(names, nodes, ns, known, whole).Some? && s in ReadAll(names, nodes, ns, known, whole).value
    ensures s in known || DefinitionsIn(nodes, ns, s, whole) > 0
    decreases whole, 0, |nodes|
  {
    if nodes != [] {
      assert nodes[0] in nodes;
      assert forall c :: c in nodes[1..] ==> c in nodes;
      var known' := Read(names, nodes[0], ns, known).value;
      KnownIsDefinedIn(names, nodes[1..], ns, known', whole, s);
      if s in known' {
        KnownIsDefined(names, nodes[0], ns, known, s);
      }
    }
  }

  // ----- finding a definition

  /** A node and the namespace it stands in. */
  datatype Scoped = At(node: Value, ns: string)

  /** The first named type in the document that defines s. */
  function Find(at: Scoped, s: string): (r: Option<Scoped>)
    ensures r.Some? ==> Defined(r.value.node, r.value.ns) == {s}
    decreases at.node, 1
  {
    if s in Defined(at.node, at.ns) then Some(at)
    else FindIn(Children(at.node), Inner(at.node, at.ns), s, at.node)
  }

  function FindIn(nodes: seq<Value>, ns: string, s: string, whole: Value): (r: Option<Scoped>)
    requires forall c :: c in nodes ==> c < whole
    ensures r.Some? ==> Defined(r.value.node, r.value.ns) == {s}
    decreases whole, 0, |nodes|
  {
    if nodes == [] then None
    else
      assert nodes[0] in nodes;
      assert forall c :: c in nodes[1..] ==> c in nodes;
      var first := Find(At(nodes[0], ns), s);
      if first.Some? then first else FindIn(nodes[1..], ns, s, whole)
  }

  lemma {:induction false} FoundIffDefined(at: Scoped, s: string)
    ensures Find(at, s).Some? <==> Definitions(at.node, at.ns, s) > 0
    decreases at.node, 1
  {
    if s !in Defined(at.node, at.ns) {
      FoundInIffDefined(Children(at.node), Inner(at.node, at.ns), s, at.node);
    }
  }

  lemma {:induction false} FoundInIffDefined(nodes: seq<Value>, ns: string, s: string, whole: Value)
    requires forall c :: c in nodes ==> c < whole
    ensures FindIn(nodes, ns, s, whole).Some? <==> DefinitionsIn(nodes, ns, s, whole) > 0
    decreases whole, 0, |nodes|
  {
    if nodes != [] {
      assert nodes[0] in nodes;
      assert forall c :: c in nodes[1..] ==> c in nodes;
      FoundIffDefined(At(nodes[0], ns), s);
      FoundInIffDefined(nodes[1..], ns, s, whole);
    }
  }

  /** The part stands somewhere in the tree, in the namespace it gets there. */
  ghost predicate Occurs(tree: Scoped, part: Scoped)
    decreases tree.node
  {
    tree == part || exists c :: c in Children(tree.node) && Occurs(At(c, Inner(tree.node, tree.ns)), part)
  }

  /** A part that defines s, in a document that defines it once, is what a reader finds. */
  lemma {:induction false} FoundIsThePart(tree: Scoped, part: Scoped, s: string)
    requires Occurs(tree, part) && s in Defined(part.node, part.ns) && Definitions(tree.node, tree.ns, s) <= 1
    ensures Find(tree, s) == Some(part)
    decreases tree.node, 1
  {
    if tree != part {
      var c :| c in Children(tree.node) && Occurs(At(c, Inner(tree.node, tree.ns)), part);
      FoundIsThePartIn(Children(tree.node), Inner(tree.node, tree.ns), c, part, s, tree.node);
    }
  }

  lemma {:induction false} FoundIsThePartIn(nodes: seq<Value>, ns: string, c: Value, part: Scoped, s: string, whole: Value)
    requires forall x :: x in nodes ==> x < whole
    requires c in nodes && Occurs(At(c, ns), part) && s in Defined(part.node, part.ns)
    requires DefinitionsIn(nodes, ns, s, whole) <= 1
    ensures FindIn(nodes, ns, s, whole) == Some(part) && DefinitionsIn(nodes, ns, s, whole) == 1
    decreases whole, 0, |nodes|
  {
    assert nodes[0] in nodes;
    assert forall x :: x in nodes[1..] ==> x in nodes;
    FoundIffDefined(At(nodes[0], ns), s);
    if nodes[0] == c {
      FoundIsThePart(At(c, ns), part, s);
    } else {
      FoundIsThePartIn(nodes[1..], ns, c, part, s, whole);
    }
  }

  // ----- what a document means

  /** What full names stand for. */
  type Env = map<string, Scoped>

  predicate IsName(env: Env, at: Scoped) {
    at.node.Str? && Resolve(at.ns, at.node.s) in env
  }

  /** Follows names at most fuel times. */
  ghost function Follow(env: Env, at: Scoped, fuel: nat): Scoped
    decreases fuel
  {
    if fuel > 0 && IsName(env, at) then Follow(env, env[Resolve(at.ns, at.node.s)], fuel - 1) else at
  }

  ghost predicate Settles(env: Env, at: Scoped, fuel: nat) {
    !IsName(env, Follow(env, at, fuel))
  }

  /** The node a chain of names ends in, if it ends. */
  ghost function Head(env: Env, at: Scoped): Option<Scoped> {
    if exists fuel: nat :: Settles(env, at, fuel) then
      var fuel: nat :| Settles(env, at, fuel);
      Some(Follow(env, at, fuel))
    else None
  }

  /** The full name of a named type or of a name that stands for nothing known. */
  function NameAt(at: Scoped): Option<string> {
    if at.node.Str? then Some(Resolve(at.ns, at.node.s))
    else if IsNamedType(at.node) then Some(Qualify(Inner(at.node, at.ns), at.node.StrAt("name")))
    else None
  }

  /**
   * A finite view of the tree of types: full names, and everything but the type positions as
   * it is written. Endless marks names that only lead to names.
   */
  datatype Shape = Cut | Endless | Type(name: Option<string>, frame: Value, parts: seq<Shape>)

  /** The tree of types denoted by a node, cut at the given depth. */
  ghost function Unfold(env: Env, at: Scoped, depth: nat): Shape
    decreases depth, 0
  {
    if depth == 0 then Cut
    else
      var h := Head(env, at);
      if h.None? then Endless else Opened(env, h.value, depth - 1)
  }

  ghost function Opened(env: Env, at: Scoped, depth: nat): Shape
    decreases depth, 2
  {
    Type(NameAt(at), Frame(at.node), UnfoldAll(env, Children(at.node), Inner(at.node, at.ns), depth))
  }

  ghost function UnfoldAll(env: Env, nodes: seq<Value>, ns: string, depth: nat): seq<Shape>
    decreases depth, 1, |nodes|
  {
    if nodes == [] then [] else [Unfold(env, At(nodes[0], ns), depth)] + UnfoldAll(env, nodes[1..], ns, depth)
  }

  lemma {:induction false} FollowFurther(env: Env, at: Scoped, fuel: nat, more: nat)
    requires Settles(env, at, fuel) && fuel <= more
    ensures Follow(env, at, more) == Follow(env, at, fuel)
    decreases fuel
  {
    if fuel > 0 && IsName(env, at) {
      FollowFurther(env, env[Resolve(at.ns, at.node.s)], fuel - 1, more - 1);
    }
  }

  lemma HeadIs(env: Env, at: Scoped, fuel: nat)
    requires Settles(env, at, fuel)
    ensures Head(env, at) == Some(Follow(env, at, fuel))
  {
    var other: nat :| Settles(env, at, other) && Head(env, at) == Some(Follow(env, at, other));
    FollowFurther(env, at, fuel, if fuel < other then other else fuel);
    FollowFurther(env, at, other, if fuel < other then other else fuel);
  }

  /** A node that is no name is its own head, and a name has what it stands for if that is no name. */
  lemma HeadTo(env: Env, at: Scoped, to: Scoped)
    requires !IsName(env, to) && to == if IsName(env, at) then env[Resolve(at.ns, at.node.s)] else at
    ensures Head(env, at) == Some(to)
  {
    if IsName(env, at) {
      assert Follow(env, at, 1) == Follow(env, to, 0);
      HeadIs(env, at, 1);
    } else {
      HeadIs(env, at, 0);
    }
  }

  lemma {:induction false} UnfoldAllAt(env: Env, nodes: seq<Value>, ns: string, depth: nat, i: nat)
    requires i < |nodes|
    ensures |UnfoldAll(env, nodes, ns, depth)| == |nodes|
    ensures UnfoldAll(env, nodes, ns, depth)[i] == Unfold(env, At(nodes[i], ns), depth)
    decreases |nodes|
  {
    if |nodes| > 1 {
      UnfoldAllAt(env, nodes[1..], ns, depth, if i == 0 then 0 else i - 1);
    }
  }
}
