/** Resolution of a JSON Schema $ref, within a document or across registry references. */
module References {
  import opened Json
  import JsonPointer

  /** A schema node or document. A missing one behaves like one without keywords. */
  type Node = map<string, Value>

  /** The node a reference leads to and the document it lives in. */
  datatype Target = Target(node: Node, doc: Node) | Missing

  function FromLookup(l: JsonPointer.Lookup, doc: Node): Target {
    if l.Found? then Target(l.node, doc) else Missing
  }

  function IndexOf(s: string, c: char): (i: nat)
    ensures i <= |s| && (i < |s| ==> s[i] == c)
  {
    if s == "" || s[0] == c then 0 else 1 + IndexOf(s[1..], c)
  }

  function ResolveRef(refs: map<string, Node>, ref: string, doc: Node): Target {
    if ref == "" then Missing
    else if ref[0] == '#' then FromLookup(JsonPointer.Resolve(doc, ref), doc)
    else
      var i := IndexOf(ref, '#');
      if ref[..i] !in refs then Missing
      else if ref[i..] == "" || ref[i..] == "#" then Target(refs[ref[..i]], refs[ref[..i]])
      else FromLookup(JsonPointer.Resolve(refs[ref[..i]], ref[i..]), refs[ref[..i]])
  }

  lemma {:induction false} IndexOfFirst(prefix: string, rest: string)
    requires '#' !in prefix
    ensures IndexOf(prefix + "#" + rest, '#') == |prefix|
  {
    var s := prefix + "#" + rest;
    if prefix != "" {
      IndexOfFirst(prefix[1..], rest);
      assert s[1..] == prefix[1..] + "#" + rest;
    }
  }

  /** A reference made of a registry name and the pointer to a key path leads to that path in the named document. */
  lemma NamedPointerRoundTrip(refs: map<string, Node>, name: string, keys: seq<string>, doc: Node)
    requires name != "" && '#' !in name && name in refs && keys != [""]
    ensures ResolveRef(refs, name + JsonPointer.Pointer(keys), doc) ==
            FromLookup(JsonPointer.Follow(Obj(refs[name]), keys), refs[name])
  {
    var pointer := JsonPointer.Pointer(keys);
    var ref := name + pointer;
    assert pointer == "#" + pointer[1..];
    assert ref == name + "#" + pointer[1..];
    IndexOfFirst(name, pointer[1..]);
    assert ref[..|name|] == name && ref[|name|..] == pointer;
    JsonPointer.PointerRoundTrip(refs[name], keys);
  }

  /** A reference that is only a pointer leads to the path in the document it stands in. */
  lemma LocalPointerRoundTrip(refs: map<string, Node>, keys: seq<string>, doc: Node)
    requires keys != [""]
    ensures ResolveRef(refs, JsonPointer.Pointer(keys), doc) == FromLookup(JsonPointer.Follow(Obj(doc), keys), doc)
  {
    JsonPointer.PointerRoundTrip(doc, keys);
  }

  lemma {:induction false} NoHash(s: string)
    requires '#' !in s
    ensures IndexOf(s, '#') == |s|
  {
    if s != "" {
      NoHash(s[1..]);
    }
  }

  /** A name alone leads to the whole document of that name; a name nobody registered leads nowhere, nor does the empty reference. */
  lemma NameAlone(refs: map<string, Node>, name: string, rest: string, doc: Node)
    requires name != "" && '#' !in name
    ensures ResolveRef(refs, name, doc) == if name in refs then Target(refs[name], refs[name]) else Missing
    ensures name !in refs ==> ResolveRef(refs, name + "#" + rest, doc) == Missing
    ensures ResolveRef(refs, "", doc) == Missing
  {
    NoHash(name);
    assert name[..|name|] == name && name[|name|..] == "";
    IndexOfFirst(name, rest);
    assert (name + "#" + rest)[..|name|] == name;
  }
}
