/** What `encodeParameters` writes and what `commutativeParameterHash`
    computes, as functions of the two parameter lists. */
module ParamEncode {
  import opened Wrappers
  import opened Bytes
  import opened DataXor
  import opened Parameters

  /** The extension-parameter name whose presence triggers the extra space. */
  const MSGR: Data := Ascii("msgr")

  /** `;` and the encoding of each typed parameter, in list order. */
  function TypedPieces(c: Codecs, s: seq<TypedParam>): (r: Data)
    ensures |r| >= |s|
    ensures s != [] ==> r[0] == SEMI_COLON
  {
    if s == [] then [] else TypedPieces(c, s[..|s| - 1]) + [SEMI_COLON] + c.encodeTyped(s[|s| - 1])
  }

  /** `;` and the encoding of each extension parameter, in list order. */
  function UnknownPieces(c: Codecs, s: seq<UnknownParam>): (r: Data)
    ensures |r| >= |s|
    ensures s != [] ==> r[0] == SEMI_COLON
  {
    if s == [] then [] else UnknownPieces(c, s[..|s| - 1]) + [SEMI_COLON] + c.encodeUnknown(s[|s| - 1])
  }

  /** The typed pass: its pieces, with one space after the first `;` when
      `spaced` holds and there is a first parameter. */
  function TypedPass(c: Codecs, params: seq<TypedParam>, spaced: bool): (r: Data)
    ensures |r| == |TypedPieces(c, params)| + (if spaced && params != [] then 1 else 0)
    ensures params != [] ==> r[0] == SEMI_COLON
  {
    var pieces := TypedPieces(c, params);
    if spaced && |params| > 0 then pieces[..1] + [SPACE] + pieces[1..] else pieces
  }

  /** The encoded parameter list: every parameter prefixed by `;`, typed
      ones first, and a single space after the first `;` of the typed pass
      when an extension parameter named `msgr` (ignoring case) exists. */
  function Encoding(c: Codecs, params: seq<TypedParam>, unknowns: seq<UnknownParam>): (r: Data)
    ensures params == [] && unknowns == [] ==> r == []
  {
    TypedPass(c, params, FindName(unknowns, MSGR).Some?) + UnknownPieces(c, unknowns)
  }

  lemma TypedPiecesStep(c: Codecs, s: seq<TypedParam>, i: nat)
    requires i < |s|
    ensures TypedPieces(c, s[..i + 1]) == TypedPieces(c, s[..i]) + [SEMI_COLON] + c.encodeTyped(s[i])
  {
    assert s[..i + 1][..i] == s[..i];
  }

  lemma UnknownPiecesStep(c: Codecs, s: seq<UnknownParam>, i: nat)
    requires i < |s|
    ensures UnknownPieces(c, s[..i + 1]) == UnknownPieces(c, s[..i]) + [SEMI_COLON] + c.encodeUnknown(s[i])
  {
    assert s[..i + 1][..i] == s[..i];
  }

  /** The typed pass of a concatenation is the concatenation of the passes:
      parameters are written in list order, each on its own. */
  lemma {:induction false} TypedPiecesConcat(c: Codecs, a: seq<TypedParam>, b: seq<TypedParam>)
    ensures TypedPieces(c, a + b) == TypedPieces(c, a) + TypedPieces(c, b)
  {
    if b == [] {
      assert a + b == a;
    } else {
      var n := |b| - 1;
      assert (a + b)[..|a + b| - 1] == a + b[..n];
      assert (a + b)[|a + b| - 1] == b[n];
      TypedPiecesConcat(c, a, b[..n]);
    }
  }

  /** The same for the extension pass. */
  lemma {:induction false} UnknownPiecesConcat(c: Codecs, a: seq<UnknownParam>, b: seq<UnknownParam>)
    ensures UnknownPieces(c, a + b) == UnknownPieces(c, a) + UnknownPieces(c, b)
  {
    if b == [] {
      assert a + b == a;
    } else {
      var n := |b| - 1;
      assert (a + b)[..|a + b| - 1] == a + b[..n];
      assert (a + b)[|a + b| - 1] == b[n];
      UnknownPiecesConcat(c, a, b[..n]);
    }
  }

  /** A non-empty typed pass begins with `;` followed by the first
      parameter's encoding. */
  lemma {:induction false} TypedPiecesFirst(c: Codecs, s: seq<TypedParam>)
    requires |s| > 0
    ensures TypedPieces(c, s) == [SEMI_COLON] + c.encodeTyped(s[0]) + TypedPieces(c, s[1..])
  {
    assert s == [s[0]] + s[1..];
    TypedPiecesConcat(c, [s[0]], s[1..]);
    assert [s[0]][..0] == [];
  }

  /** The output of a non-empty store starts with `;`, and it is `;`, then
      one space exactly when `msgr` is present, then the first typed
      parameter's encoding, then the rest of the typed pass, then the
      extension pass: the space can appear only once, in the typed pass. */
  lemma EncodingShape(c: Codecs, params: seq<TypedParam>, unknowns: seq<UnknownParam>)
    requires |params| > 0
    ensures var space := if FindName(unknowns, MSGR).Some? then [SPACE] else [];
      var rest := c.encodeTyped(params[0]) + TypedPieces(c, params[1..]);
      Encoding(c, params, unknowns) == [SEMI_COLON] + space + rest + UnknownPieces(c, unknowns)
  {
    TypedPassFirst(c, params, FindName(unknowns, MSGR).Some?);
  }

  lemma TypedPassFirst(c: Codecs, params: seq<TypedParam>, spaced: bool)
    requires |params| > 0
    ensures TypedPass(c, params, spaced) ==
      [SEMI_COLON] + (if spaced then [SPACE] else []) + (c.encodeTyped(params[0]) + TypedPieces(c, params[1..]))
  {
    TypedPiecesFirst(c, params);
    var pieces := TypedPieces(c, params);
    var tail := c.encodeTyped(params[0]) + TypedPieces(c, params[1..]);
    assert pieces == [SEMI_COLON] + tail;
    assert pieces[..1] == [SEMI_COLON] && pieces[1..] == tail;
  }

  /** Appending to the typed pass: after the first parameter, each further
      one adds `;` and its encoding; the first adds `;`, the optional space
      and its encoding. */
  lemma TypedPassStep(c: Codecs, s: seq<TypedParam>, i: nat, spaced: bool)
    requires i < |s|
    ensures TypedPass(c, s[..i + 1], spaced) ==
      TypedPass(c, s[..i], spaced) + ([SEMI_COLON] + (if spaced && i == 0 then [SPACE] else [])) + c.encodeTyped(s[i])
  {
    TypedPiecesStep(c, s, i);
    if i == 0 {
      assert s[..i] == [];
    }
  }

  /** With no typed parameters the output is the extension pass alone, with
      no space even when `msgr` is present. */
  lemma EncodingNoTyped(c: Codecs, unknowns: seq<UnknownParam>)
    ensures Encoding(c, [], unknowns) == UnknownPieces(c, unknowns)
  {
    assert TypedPieces(c, []) == [];
  }

  // ---------------------------------------------------------------------
  // Commutative hash

  /** What a typed parameter adds to the hash: its encoding, or nothing for
      `lr`. */
  function TypedHashPiece(c: Codecs, p: TypedParam): (r: Data)
    ensures p.ptype == Lr ==> r == []
    ensures p.ptype != Lr ==> r == c.encodeTyped(p)
  {
    if p.ptype == Lr then [] else c.encodeTyped(p)
  }

  /** What an extension parameter adds: its name followed by its value, with
      no `=` between them. */
  function UnknownHashPiece(u: UnknownParam): (r: Data)
    ensures |r| == |u.name| + |u.value|
    ensures r[..|u.name|] == u.name && r[|u.name|..] == u.value
  {
    u.name + u.value
  }

  function TypedHashFn(c: Codecs): TypedParam -> Data
  {
    p => TypedHashPiece(c, p)
  }

  function UnknownHashFn(): UnknownParam -> Data
  {
    u => UnknownHashPiece(u)
  }

  /** The XOR of every contribution, typed parameters first. */
  function Hash(c: Codecs, params: seq<TypedParam>, unknowns: seq<UnknownParam>): (r: Data)
    ensures params == [] && unknowns == [] ==> r == []
  {
    XorFold(XorFold([], params, TypedHashFn(c)), unknowns, UnknownHashFn())
  }

  /** The hash does not depend on the order of either list. */
  lemma HashIsCommutative(c: Codecs, p1: seq<TypedParam>, p2: seq<TypedParam>,
                          u1: seq<UnknownParam>, u2: seq<UnknownParam>)
    requires multiset(p1) == multiset(p2) && multiset(u1) == multiset(u2)
    ensures Hash(c, p1, u1) == Hash(c, p2, u2)
  {
    XorFoldPermutation([], p1, p2, TypedHashFn(c));
    XorFoldPermutation(XorFold([], p1, TypedHashFn(c)), u1, u2, UnknownHashFn());
  }

  /** `lr` parameters make no difference to the hash: removing all of them
      gives the same value. */
  lemma {:induction false} HashIgnoresLr(c: Codecs, params: seq<TypedParam>, unknowns: seq<UnknownParam>)
    ensures Hash(c, WithoutType(params, Lr), unknowns) == Hash(c, params, unknowns)
  {
    TypedFoldIgnoresLr(c, params);
  }

  lemma {:induction false} TypedFoldIgnoresLr(c: Codecs, s: seq<TypedParam>)
    ensures XorFold([], WithoutType(s, Lr), TypedHashFn(c)) == XorFold([], s, TypedHashFn(c))
  {
    if s != [] {
      var n := |s| - 1;
      var f := TypedHashFn(c);
      TypedFoldIgnoresLr(c, s[..n]);
      var prefix := WithoutType(s[..n], Lr);
      if s[n].ptype == Lr {
        assert WithoutType(s, Lr) == prefix;
        XorEmpty(XorFold([], s[..n], f));
      } else {
        assert WithoutType(s, Lr) == prefix + [s[n]];
        assert (prefix + [s[n]])[..|prefix|] == prefix;
      }
    }
  }

  /** A store whose only parameters are `lr` parameters hashes to the empty
      buffer, as an empty store does. */
  lemma OnlyLrHashesEmpty(c: Codecs, params: seq<TypedParam>)
    requires forall i :: 0 <= i < |params| ==> params[i].ptype == Lr
    ensures Hash(c, params, []) == []
  {
    assert WithoutType(params, Lr) == [];
    HashIgnoresLr(c, params, []);
  }

  /** Adding an `lr` parameter anywhere leaves the hash as it was. */
  lemma AddingLrKeepsHash(c: Codecs, params: seq<TypedParam>, unknowns: seq<UnknownParam>,
                          i: nat, lr: TypedParam)
    requires i <= |params| && lr.ptype == Lr
    ensures Hash(c, params[..i] + [lr] + params[i..], unknowns) == Hash(c, params, unknowns)
  {
    var q := params[..i] + [lr] + params[i..];
    RemoveTypeSkipsInserted(params, i, lr);
    HashIgnoresLr(c, q, unknowns);
    HashIgnoresLr(c, params, unknowns);
  }
}
