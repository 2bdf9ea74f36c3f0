/** Resolution of JSON Pointer fragments (RFC 6901) such as "#/definitions/Foo" within a schema document. */
module JsonPointer {
  import opened Json

  type Entries = map<string, Value>

  datatype Lookup = Found(node: Entries) | NotAnObject | TokenNotFound | NotASchema

  // ----- the text of a pointer

  /** Replaces, from left to right, every '~' followed by second with into. */
  function ReplaceAll(s: string, second: char, into: char): string {
    if |s| < 2 then s
    else if s[0] == '~' && s[1] == second then [into] + ReplaceAll(s[2..], second, into)
    else [s[0]] + ReplaceAll(s[1..], second, into)
  }

  function Unescape(token: string): string {
    ReplaceAll(ReplaceAll(token, '1', '/'), '0', '~')
  }

  /** The position of the first slash, or the length of s. */
  function Slash(s: string): (i: nat)
    ensures i <= |s| && '/' !in s[..i] && (i < |s| ==> s[i] == '/')
  {
    if s == "" || s[0] == '/' then 0
    else
      var i := Slash(s[1..]);
      assert s[..i + 1] == [s[0]] + s[1..][..i];
      i + 1
  }

  /** The pieces of s between slashes; never empty. */
  function Split(s: string): seq<string>
    decreases |s|
  {
    var i := Slash(s);
    if i == |s| then [s] else [s[..i]] + Split(s[i + 1..])
  }

  function TrimPrefix(s: string, c: char): string {
    if s != "" && s[0] == c then s[1..] else s
  }

  // ----- resolution

  function Walk(cur: Value, tokens: seq<string>): Lookup
    decreases |tokens|
  {
    if tokens == [] then
      if cur.Obj? then Found(cur.entries) else NotASchema
    else if !cur.Obj? then NotAnObject
    else if Unescape(tokens[0]) !in cur.entries then TokenNotFound
    else Walk(cur.entries[Unescape(tokens[0])], tokens[1..])
  }

  function Resolve(doc: Entries, ref: string): Lookup {
    var ptr := TrimPrefix(TrimPrefix(ref, '#'), '/');
    if ptr == "" then Found(doc) else Walk(Obj(doc), Split(ptr))
  }

  method ResolvePointer(doc: Entries, ref: string) returns (r: Lookup)
    ensures r == Resolve(doc, ref)
  {
    var ptr := TrimPrefix(TrimPrefix(ref, '#'), '/');
    if ptr == "" {
      return Found(doc);
    }
    var cur := Obj(doc);
    var tokens := Split(ptr);
    for i := 0 to |tokens|
      invariant Resolve(doc, ref) == Walk(cur, tokens[i..])
    {
      var token := Unescape(tokens[i]);
      assert tokens[i..][1..] == tokens[i + 1..];
      if !cur.Obj? {
        return NotAnObject;
      }
      if token !in cur.entries {
        return TokenNotFound;
      }
      cur := cur.entries[token];
    }
    r := if cur.Obj? then Found(cur.entries) else NotASchema;
  }

  // ----- pointers to key paths

  /** The node found by following raw keys. */
  function Follow(cur: Value, keys: seq<string>): Lookup
    decreases |keys|
  {
    if keys == [] then
      if cur.Obj? then Found(cur.entries) else NotASchema
    else if !cur.Obj? then NotAnObject
    else if keys[0] !in cur.entries then TokenNotFound
    else Follow(cur.entries[keys[0]], keys[1..])
  }

  /** A key written as a reference token: '~' becomes "~0" and '/' becomes "~1". */
  function Escape(key: string): string {
    if key == "" then ""
    else (if key[0] == '~' then "~0" else if key[0] == '/' then "~1" else [key[0]]) + Escape(key[1..])
  }

  /** The pointer to a key path, after a hash and without percent-encoding, as the code resolves it. */
  function Pointer(keys: seq<string>): string {
    if keys == [] then "#" else "#/" + Joined(keys)
  }

  function Joined(keys: seq<string>): string
    requires keys != []
  {
    if |keys| == 1 then Escape(keys[0]) else Escape(keys[0]) + "/" + Joined(keys[1..])
  }

  /** A key with only its tildes escaped: what is left after the first of the two replacements. */
  function EscapeTildes(key: string): string {
    if key == "" then ""
    else (if key[0] == '~' then "~0" else [key[0]]) + EscapeTildes(key[1..])
  }

  lemma {:induction false} SlashesBack(key: string)
    ensures ReplaceAll(Escape(key), '1', '/') == EscapeTildes(key)
  {
    if key != "" {
      SlashesBack(key[1..]);
      var e := Escape(key);
      if key[0] == '~' {
        assert e[1..] == "0" + Escape(key[1..]);
        assert e[1..][1..] == Escape(key[1..]);
        assert ReplaceAll(e, '1', '/') == "~" + ReplaceAll(e[1..], '1', '/');
      } else if key[0] == '/' {
        assert e[2..] == Escape(key[1..]);
      } else {
        assert e[1..] == Escape(key[1..]);
      }
    }
  }

  lemma {:induction false} TildesBack(key: string)
    ensures ReplaceAll(EscapeTildes(key), '0', '~') == key
  {
    if key != "" {
      TildesBack(key[1..]);
      var e := EscapeTildes(key);
      if key[0] == '~' {
        assert e[2..] == EscapeTildes(key[1..]);
      } else {
        assert e[1..] == EscapeTildes(key[1..]);
      }
    }
  }

  lemma UnescapeEscape(key: string)
    ensures Unescape(Escape(key)) == key
  {
    SlashesBack(key);
    TildesBack(key);
  }

  lemma {:induction false} EscapeHasNoSlash(key: string)
    ensures '/' !in Escape(key)
  {
    if key != "" {
      EscapeHasNoSlash(key[1..]);
    }
  }

  lemma SplitPiece(piece: string, rest: string)
    requires '/' !in piece
    ensures Split(piece) == [piece]
    ensures Split(piece + "/" + rest) == [piece] + Split(rest)
  {
    assert Slash(piece) == |piece|;
    var s := piece + "/" + rest;
    var i := Slash(s);
    assert i == |piece| by {
      assert s[|piece|] == '/';
      assert forall j :: 0 <= j < |piece| ==> s[j] == piece[j];
      assert forall j :: 0 <= j < i ==> s[j] == s[..i][j];
    }
    assert s[..i] == piece && s[i + 1..] == rest;
  }

  function EscapeAll(keys: seq<string>): seq<string> {
    if keys == [] then [] else [Escape(keys[0])] + EscapeAll(keys[1..])
  }

  /** Splitting the text of a pointer gives back its escaped keys. */
  lemma {:induction false} SplitJoined(keys: seq<string>)
    requires keys != []
    ensures Split(Joined(keys)) == EscapeAll(keys)
  {
    EscapeHasNoSlash(keys[0]);
    if |keys| == 1 {
      SplitPiece(Escape(keys[0]), "");
    } else {
      SplitPiece(Escape(keys[0]), Joined(keys[1..]));
      SplitJoined(keys[1..]);
    }
  }

  lemma {:induction false} WalkEscaped(cur: Value, keys: seq<string>)
    ensures Walk(cur, EscapeAll(keys)) == Follow(cur, keys)
    decreases |keys|
  {
    if keys != [] {
      UnescapeEscape(keys[0]);
      if cur.Obj? && keys[0] in cur.entries {
        WalkEscaped(cur.entries[keys[0]], keys[1..]);
      }
    }
  }

  lemma PointerText(keys: seq<string>)
    requires keys != [] && keys != [""]
    ensures Joined(keys) != "" && TrimPrefix(TrimPrefix(Pointer(keys), '#'), '/') == Joined(keys)
  {
    assert Pointer(keys)[1..] == "/" + Joined(keys);
    assert ("/" + Joined(keys))[1..] == Joined(keys);
    if |keys| == 1 {
      assert keys == [keys[0]];
    }
  }

  /** Resolving the escaped, joined path reaches the node found by following the raw keys, errors included. */
  lemma PointerRoundTrip(doc: Entries, keys: seq<string>)
    requires keys != [""]
    ensures Resolve(doc, Pointer(keys)) == Follow(Obj(doc), keys)
  {
    if keys != [] {
      PointerText(keys);
      SplitJoined(keys);
      WalkEscaped(Obj(doc), keys);
    }
  }

  /** The single empty key is the only path whose pointer resolves to something else: to the document itself. */
  lemma PointerRoundTripIff(doc: Entries, keys: seq<string>)
    ensures Resolve(doc, Pointer(keys)) == Follow(Obj(doc), keys) <==> keys != [""]
  {
    if keys == [""] {
      assert Pointer(keys)[1..] == "/";
      if "" in doc && doc[""].Obj? {
        assert doc[""] < Obj(doc);
      }
    } else {
      PointerRoundTrip(doc, keys);
    }
  }

  // ----- any pointer

  /** A token read once from left to right: "~1" is a slash, "~0" a tilde, and all else stands for itself. */
  function Plain(token: string): string {
    if |token| < 2 then token
    else if token[0] == '~' && token[1] == '1' then "/" + Plain(token[2..])
    else if token[0] == '~' && token[1] == '0' then "~" + Plain(token[2..])
    else [token[0]] + Plain(token[1..])
  }

  lemma {:induction false} ReplacedStart(s: string)
    requires s != ""
    ensures ReplaceAll(s, '1', '/') != ""
    ensures ReplaceAll(s, '1', '/')[0] == if |s| >= 2 && s[0] == '~' && s[1] == '1' then '/' else s[0]
  {
  }

  lemma ReplaceFirst(c: char, s: string)
    requires c != '~' || s == "" || s[0] != '0'
    ensures ReplaceAll([c] + s, '0', '~') == [c] + ReplaceAll(s, '0', '~')
  {
    var t := [c] + s;
    assert t[1..] == s;
    if s == "" {
      assert t == [c] && ReplaceAll(s, '0', '~') == "";
    }
  }

  /** Undoing the two escapes one after the other is reading the token once. */
  lemma {:induction false} UnescapeIs(token: string)
    ensures Unescape(token) == Plain(token)
    decreases |token|
  {
    if |token| >= 2 {
      var rest := token[1..];
      if token[0] == '~' && token[1] == '1' {
        UnescapeIs(token[2..]);
        ReplaceFirst('/', ReplaceAll(token[2..], '1', '/'));
      } else {
        ReplacedStart(rest);
        var replaced := ReplaceAll(rest, '1', '/');
        if token[0] == '~' && token[1] == '0' {
          UnescapeIs(token[2..]);
          ReplacedZero(rest);
          assert ([token[0]] + replaced)[2..] == replaced[1..];
        } else {
          UnescapeIs(rest);
          ReplaceFirst(token[0], replaced);
        }
      }
    }
  }

  lemma ReplacedZero(s: string)
    requires s != "" && s[0] == '0'
    ensures ReplaceAll(s, '1', '/') == "0" + ReplaceAll(s[1..], '1', '/')
  {
    if |s| == 1 {
      assert s == "0" && s[1..] == "";
    }
  }

  function Slashed(tokens: seq<string>): string
    requires tokens != []
  {
    if |tokens| == 1 then tokens[0] else tokens[0] + "/" + Slashed(tokens[1..])
  }

  ghost predicate NoSlashes(tokens: seq<string>) {
    forall i :: 0 <= i < |tokens| ==> '/' !in tokens[i]
  }

  lemma {:induction false} SplitSlashed(tokens: seq<string>)
    requires tokens != [] && NoSlashes(tokens)
    ensures Split(Slashed(tokens)) == tokens
  {
    if |tokens| == 1 {
      SplitPiece(tokens[0], "");
    } else {
      SplitSlashed(tokens[1..]);
      SplitPiece(tokens[0], Slashed(tokens[1..]));
    }
  }

  function PlainAll(tokens: seq<string>): seq<string> {
    seq(|tokens|, i requires 0 <= i < |tokens| => Plain(tokens[i]))
  }

  lemma {:induction false} WalkPlain(cur: Value, tokens: seq<string>)
    ensures Walk(cur, tokens) == Follow(cur, PlainAll(tokens))
    decreases |tokens|
  {
    if tokens != [] {
      UnescapeIs(tokens[0]);
      assert PlainAll(tokens)[1..] == PlainAll(tokens[1..]);
      if cur.Obj? && Plain(tokens[0]) in cur.entries {
        WalkPlain(cur.entries[Plain(tokens[0])], tokens[1..]);
      }
    }
  }

  /**
   * Any pointer, well formed or not: its tokens are what stands between slashes, each read once, and are
   * followed as keys. The hash and the first slash may be missing; without tokens it is the document.
   */
  lemma AnyPointer(doc: Entries, tokens: seq<string>, ref: string)
    requires tokens != [] && NoSlashes(tokens) && tokens[0] != "" && tokens[0][0] != '#'
    requires ref in {Slashed(tokens), "/" + Slashed(tokens), "#" + Slashed(tokens), "#/" + Slashed(tokens)}
    ensures Resolve(doc, ref) == Follow(Obj(doc), PlainAll(tokens))
    ensures Resolve(doc, "") == Resolve(doc, "#") == Resolve(doc, "/") == Resolve(doc, "#/") == Found(doc)
  {
    var text := Slashed(tokens);
    assert text[0] == tokens[0][0] && tokens[0][0] != '/';
    assert TrimPrefix(TrimPrefix(ref, '#'), '/') == text by {
      assert ("/" + text)[1..] == text && ("#" + text)[1..] == text && ("#/" + text)[1..] == "/" + text;
    }
    SplitSlashed(tokens);
    WalkPlain(Obj(doc), tokens);
  }
}
