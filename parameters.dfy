/** Parameters of a header value and the pure list operations that the
    parameter store's loops implement: lookup by tag, lookup by name
    ignoring case, removal, filtering and replace-or-append. */
module Parameters {
  import opened Wrappers
  import opened Bytes
  import opened Seqs

  /** `ParameterTypes::Type`. `Unknown` is the registry's sentinel for a name
      it does not know; `Lr` and `QopOptions` are the tags this code names;
      the rest of the generated enumeration is `Other(index)`. */
  datatype ParamType = Unknown | Lr | QopOptions | Other(index: nat)

  /** A typed parameter: its tag, its value text and whether it is written
      quoted. */
  datatype TypedParam = TypedParam(ptype: ParamType, value: Data, quoted: bool)

  /** An extension (unknown) parameter: the name as written and its value. */
  datatype UnknownParam = UnknownParam(name: Data, value: Data, quoted: bool)

  /** What a typed-parameter factory returns: the parameter and the cursor
      position after its value. */
  datatype Decoded = Decoded(param: TypedParam, next: nat)

  /** What the extension-parameter value scanner returns. */
  datatype Scanned = Scanned(value: Data, quoted: bool, next: nat)

  /** `ParameterTypes::ParameterFactories[type](type, pb, terminators)`: it
      builds a parameter of the tag it is given and only moves the cursor
      forward, never past the end of the buffer. */
  type Factory = f: (ParamType, Data, nat, set<bv8>) -> Decoded
    | forall t: ParamType, buf: Data, pos: nat, terms: set<bv8> :: pos <= |buf| ==>
        pos <= f(t, buf, pos, terms).next <= |buf| && f(t, buf, pos, terms).param.ptype == t
    witness (t: ParamType, buf: Data, pos: nat, terms: set<bv8>) => Decoded(TypedParam(t, [], false), pos)

  /** The value scanning of `UnknownParameter(key, len, pb, terminators)`:
      only moves the cursor forward, never past the end of the buffer. */
  type ValueScanner = f: (Data, nat, set<bv8>) -> Scanned
    | forall buf: Data, pos: nat, terms: set<bv8> :: pos <= |buf| ==> pos <= f(buf, pos, terms).next <= |buf|
    witness (buf: Data, pos: nat, terms: set<bv8>) => Scanned([], false, pos)

  /** The collaborators whose code is not part of this model. */
  datatype Codecs = Codecs(
    getType: Data -> ParamType,             // ParameterTypes::getType
    factory: Factory,                       // ParameterTypes::ParameterFactories
    scanUnknown: ValueScanner,              // UnknownParameter's value scanning
    encodeTyped: TypedParam -> Data,        // Parameter::encode of a typed parameter
    encodeUnknown: UnknownParam -> Data)    // UnknownParameter::encode

  datatype ParamError = MissingParameter(name: Data)

  // ---------------------------------------------------------------------
  // Typed parameters

  /** The index of the first parameter with tag `t` (getParameterByEnum). */
  function FindType(s: seq<TypedParam>, t: ParamType): (r: Option<nat>)
    ensures r.Some? ==> r.value < |s| && s[r.value].ptype == t
    ensures r.Some? ==> forall j :: 0 <= j < r.value ==> s[j].ptype != t
    ensures r.None? <==> forall j :: 0 <= j < |s| ==> s[j].ptype != t
  {
    if s == [] then None
    else if s[0].ptype == t then Some(0)
    else match FindType(s[1..], t)
      case None => None
      case Some(i) => Some(i + 1)
  }

  /** A tag appended because it was absent is found at the new last slot. */
  lemma {:induction false} AppendedTypeIsFound(s: seq<TypedParam>, p: TypedParam)
    requires FindType(s, p.ptype).None?
    ensures FindType(s + [p], p.ptype) == Some(|s|)
  {
    if s == [] {
      assert [] + [p] == [p];
    } else {
      assert (s + [p])[1..] == s[1..] + [p];
      AppendedTypeIsFound(s[1..], p);
    }
  }

  /** At most one typed parameter per tag: what `setParameter` aims at. */
  predicate UniqueTypes(s: seq<TypedParam>)
  {
    forall i, j :: 0 <= i < j < |s| ==> s[i].ptype != s[j].ptype
  }

  function KeepOtherTypes(t: ParamType): TypedParam -> bool
  {
    (p: TypedParam) => p.ptype != t
  }

  function KeepTypesIn(allowed: set<ParamType>): TypedParam -> bool
  {
    (p: TypedParam) => p.ptype in allowed
  }

  /** Every parameter of tag `t` removed, the rest in order
      (removeParameterByEnum). */
  function WithoutType(s: seq<TypedParam>, t: ParamType): (r: seq<TypedParam>)
    ensures forall p :: p in r <==> p in s && p.ptype != t
    ensures FindType(r, t).None?
    ensures |r| <= |s|
  {
    Filter(s, KeepOtherTypes(t))
  }

  /** Only the parameters whose tag is in `allowed`, in order
      (removeParametersExcept). */
  function OnlyTypes(s: seq<TypedParam>, allowed: set<ParamType>): (r: seq<TypedParam>)
    ensures forall p :: p in r <==> p in s && p.ptype in allowed
    ensures forall t :: t !in allowed ==> FindType(r, t).None?
    ensures |r| <= |s|
  {
    Filter(s, KeepTypesIn(allowed))
  }

  /** Replace-or-append (setParameter): the first parameter of `p`'s tag, if
      any, is taken out, and `p` goes to the end. */
  function SetParam(s: seq<TypedParam>, p: TypedParam): (r: seq<TypedParam>)
    ensures |r| > 0 && r[|r| - 1] == p
    ensures FindType(s, p.ptype).Some? ==> |r| == |s|
    ensures FindType(s, p.ptype).None? ==> r == s + [p]
    ensures forall q: TypedParam :: q.ptype != p.ptype ==> (q in r <==> q in s)
  {
    match FindType(s, p.ptype)
    case None => s + [p]
    case Some(i) => s[..i] + s[i + 1..] + [p]
  }

  /** Removing a tag that is not there changes nothing. */
  lemma RemoveAbsentTypeIsNoop(s: seq<TypedParam>, t: ParamType)
    requires FindType(s, t).None?
    ensures WithoutType(s, t) == s
  {
    FilterKeepsAll(s, KeepOtherTypes(t));
  }

  /** Removing a tag keeps the other parameters in their relative order:
      removal from a concatenation is the concatenation of the removals. */
  lemma RemoveTypeKeepsOrder(a: seq<TypedParam>, b: seq<TypedParam>, t: ParamType)
    ensures WithoutType(a + b, t) == WithoutType(a, t) + WithoutType(b, t)
  {
    FilterConcat(a, b, KeepOtherTypes(t));
  }

  lemma RemoveTypeSingleton(p: TypedParam)
    ensures WithoutType([p], p.ptype) == []
  {
    assert [p][..0] == [];
  }

  /** A parameter of tag `t` inserted anywhere disappears again on removal
      of `t`. */
  lemma RemoveTypeSkipsInserted(s: seq<TypedParam>, i: nat, p: TypedParam)
    requires i <= |s|
    ensures WithoutType(s[..i] + [p] + s[i..], p.ptype) == WithoutType(s, p.ptype)
  {
    var t, a, b := p.ptype, s[..i], s[i..];
    assert a + b == s;
    calc {
      WithoutType(a + [p] + b, t);
      { RemoveTypeKeepsOrder(a + [p], b, t); }
      WithoutType(a + [p], t) + WithoutType(b, t);
      { RemoveTypeKeepsOrder(a, [p], t); RemoveTypeSingleton(p); }
      WithoutType(a, t) + [] + WithoutType(b, t);
      { assert WithoutType(a, t) + [] == WithoutType(a, t); }
      WithoutType(a, t) + WithoutType(b, t);
      { RemoveTypeKeepsOrder(a, b, t); }
      WithoutType(s, t);
    }
  }

  /** A prefix of a list with distinct tags has distinct tags. */
  lemma UniqueTypesPrefix(s: seq<TypedParam>, n: nat)
    requires n <= |s| && UniqueTypes(s)
    ensures UniqueTypes(s[..n])
  {
    forall a, b | 0 <= a < b < n ensures s[..n][a].ptype != s[..n][b].ptype {
      assert s[..n][a] == s[a] && s[..n][b] == s[b];
    }
  }

  /** Removal preserves the at-most-one-per-tag invariant. */
  lemma {:induction false} RemoveTypeKeepsUnique(s: seq<TypedParam>, t: ParamType)
    requires UniqueTypes(s)
    ensures UniqueTypes(WithoutType(s, t))
  {
    if s != [] {
      var n := |s| - 1;
      var last := s[n];
      UniqueTypesPrefix(s, n);
      RemoveTypeKeepsUnique(s[..n], t);
      var prefix := WithoutType(s[..n], t);
      if last.ptype != t {
        assert WithoutType(s, t) == prefix + [last];
        forall i | 0 <= i < |prefix| ensures prefix[i].ptype != last.ptype {
          assert prefix[i] in s[..n];
          var k :| 0 <= k < n && s[..n][k] == prefix[i];
          assert s[k] == prefix[i];
        }
      } else {
        assert WithoutType(s, t) == prefix;
      }
    }
  }

  /** After filtering to `{t}`, a parameter of tag `t` is present exactly when
      it was before, and no other tag is present. */
  lemma ExceptSingleton(s: seq<TypedParam>, t: ParamType)
    ensures FindType(OnlyTypes(s, {t}), t).Some? <==> FindType(s, t).Some?
    ensures forall u :: u != t ==> FindType(OnlyTypes(s, {t}), u).None?
  {
    var r := OnlyTypes(s, {t});
    if i :| 0 <= i < |s| && s[i].ptype == t {
      assert s[i] in r;
    }
  }

  /** Filtering keeps the other parameters in their relative order. */
  lemma ExceptKeepsOrder(a: seq<TypedParam>, b: seq<TypedParam>, allowed: set<ParamType>)
    ensures OnlyTypes(a + b, allowed) == OnlyTypes(a, allowed) + OnlyTypes(b, allowed)
  {
    FilterConcat(a, b, KeepTypesIn(allowed));
  }

  /** Filtering by a set that holds every tag present changes nothing. */
  lemma ExceptAllPresentIsNoop(s: seq<TypedParam>, allowed: set<ParamType>)
    requires forall i :: 0 <= i < |s| ==> s[i].ptype in allowed
    ensures OnlyTypes(s, allowed) == s
  {
    FilterKeepsAll(s, KeepTypesIn(allowed));
  }

  /** `setParameter` leaves the parameters of every other tag exactly as
      they were, order included. */
  lemma SetParamKeepsOtherTags(s: seq<TypedParam>, p: TypedParam)
    ensures WithoutType(SetParam(s, p), p.ptype) == WithoutType(s, p.ptype)
  {
    var u := p.ptype;
    var r := SetParam(s, p);
    RemoveTypeSingleton(p);
    match FindType(s, u)
    case None =>
      RemoveTypeAppended(s, p);
    case Some(i) =>
      var rest := s[..i] + s[i + 1..];
      assert r == rest + [p];
      RemoveTypeAppended(rest, p);
      RemoveTypeSkipsErased(s, i);
  }

  lemma RemoveTypeAppended(s: seq<TypedParam>, p: TypedParam)
    ensures WithoutType(s + [p], p.ptype) == WithoutType(s, p.ptype)
  {
    RemoveTypeKeepsOrder(s, [p], p.ptype);
    RemoveTypeSingleton(p);
    assert WithoutType(s, p.ptype) + [] == WithoutType(s, p.ptype);
  }

  lemma RemoveTypeSkipsErased(s: seq<TypedParam>, i: nat)
    requires i < |s|
    ensures WithoutType(s[..i] + s[i + 1..], s[i].ptype) == WithoutType(s, s[i].ptype)
  {
    var a, b := s[..i], s[i + 1..];
    RemoveTypeSkipsInserted(a + b, i, s[i]);
    assert (a + b)[..i] == a && (a + b)[i..] == b;
    assert a + [s[i]] + b == s;
  }

  /** On a list with at most one parameter per tag, `setParameter` keeps that
      invariant and a lookup of `p`'s tag afterwards finds `p`. */
  lemma SetParamKeepsUnique(s: seq<TypedParam>, p: TypedParam)
    requires UniqueTypes(s)
    ensures UniqueTypes(SetParam(s, p))
    ensures FindType(SetParam(s, p), p.ptype) == Some(|SetParam(s, p)| - 1)
  {
    match FindType(s, p.ptype)
    case None =>
      UniqueAppend(s, p);
    case Some(i) =>
      UniqueErase(s, i);
      UniqueAppend(s[..i] + s[i + 1..], p);
  }

  /** Erasing one entry of a list with distinct tags keeps the tags distinct
      and leaves no entry of the erased tag. */
  lemma UniqueErase(s: seq<TypedParam>, i: nat)
    requires UniqueTypes(s) && i < |s|
    ensures UniqueTypes(s[..i] + s[i + 1..])
    ensures FindType(s[..i] + s[i + 1..], s[i].ptype).None?
  {
    var rest := s[..i] + s[i + 1..];
    // position k of rest is position k of s before i, and k + 1 from i on
    forall a, b | 0 <= a < b < |rest| ensures rest[a].ptype != rest[b].ptype {
      var a', b' := if a < i then a else a + 1, if b < i then b else b + 1;
      assert rest[a] == s[a'] && rest[b] == s[b'];
    }
    forall a | 0 <= a < |rest| ensures rest[a].ptype != s[i].ptype {
      var a' := if a < i then a else a + 1;
      assert rest[a] == s[a'];
    }
  }

  /** Appending a parameter whose tag is absent keeps the tags distinct, and
      the new one is what a lookup of its tag finds. */
  lemma UniqueAppend(s: seq<TypedParam>, p: TypedParam)
    requires UniqueTypes(s) && FindType(s, p.ptype).None?
    ensures UniqueTypes(s + [p])
    ensures FindType(s + [p], p.ptype) == Some(|s|)
  {
    AppendedTypeIsFound(s, p);
    forall a, b | 0 <= a < b < |s| + 1 ensures (s + [p])[a].ptype != (s + [p])[b].ptype {
      if b == |s| {
        assert (s + [p])[a] == s[a];
      } else {
        assert (s + [p])[a] == s[a] && (s + [p])[b] == s[b];
      }
    }
  }

  /** Without that invariant a lookup after `setParameter` can find a stale
      duplicate left by the parser instead of the new value. */
  lemma SetParamShadowedByDuplicate()
    ensures var t := Other(0);
      var s := [TypedParam(t, [0x61], false), TypedParam(t, [0x62], false)];
      var p := TypedParam(t, [0x63], false);
      FindType(SetParam(s, p), t) == Some(0) && SetParam(s, p)[0] != p
      && SetParam(s, p) == [s[1], p]
  {
    var t := Other(0);
    var s := [TypedParam(t, [0x61], false), TypedParam(t, [0x62], false)];
    var p := TypedParam(t, [0x63], false);
    assert FindType(s, t) == Some(0);
    assert SetParam(s, p) == [s[1], p];
  }

  // ---------------------------------------------------------------------
  // Extension parameters

  /** The index of the first extension parameter whose name equals `key`
      ignoring case (getParameterByData). */
  function FindName(s: seq<UnknownParam>, key: Data): (r: Option<nat>)
    ensures r.Some? ==> r.value < |s| && EqualNoCase(s[r.value].name, key)
    ensures r.Some? ==> forall j :: 0 <= j < r.value ==> !EqualNoCase(s[j].name, key)
    ensures r.None? <==> forall j :: 0 <= j < |s| ==> !EqualNoCase(s[j].name, key)
  {
    if s == [] then None
    else if EqualNoCase(s[0].name, key) then Some(0)
    else match FindName(s[1..], key)
      case None => None
      case Some(i) => Some(i + 1)
  }

  function KeepOtherNames(key: Data): UnknownParam -> bool
  {
    (u: UnknownParam) => u.name != key
  }

  /** Every extension parameter whose name is exactly `key` removed, the rest
      in order (removeParameterByData). The comparison is case-sensitive. */
  function WithoutName(s: seq<UnknownParam>, key: Data): (r: seq<UnknownParam>)
    ensures forall u :: u in r <==> u in s && u.name != key
    ensures |r| <= |s|
  {
    Filter(s, KeepOtherNames(key))
  }

  /** Lookup ignores case but removal does not: an entry whose name differs
      from the key only in case survives removal and is still found. */
  lemma RemoveByNameMissesOtherCase(s: seq<UnknownParam>, key: Data, i: nat)
    requires i < |s| && EqualNoCase(s[i].name, key) && s[i].name != key
    ensures FindName(WithoutName(s, key), key).Some?
  {
    var r := WithoutName(s, key);
    assert s[i] in r;
    var k :| 0 <= k < |r| && r[k] == s[i];
  }

  /** Removing a name keeps the other entries in their relative order, each
      as often as before: removal from a concatenation is the concatenation
      of the removals. */
  lemma RemoveNameKeepsOrder(a: seq<UnknownParam>, b: seq<UnknownParam>, key: Data)
    ensures WithoutName(a + b, key) == WithoutName(a, key) + WithoutName(b, key)
  {
    FilterConcat(a, b, KeepOtherNames(key));
  }

  /** Removing a name that no entry has exactly changes nothing. */
  lemma RemoveAbsentNameIsNoop(s: seq<UnknownParam>, key: Data)
    requires forall i :: 0 <= i < |s| ==> s[i].name != key
    ensures WithoutName(s, key) == s
  {
    FilterKeepsAll(s, KeepOtherNames(key));
  }

  /** A name appended because it was absent is found at the new last slot. */
  lemma {:induction false} AppendedNameIsFound(s: seq<UnknownParam>, u: UnknownParam, key: Data)
    requires FindName(s, key).None? && EqualNoCase(u.name, key)
    ensures FindName(s + [u], key) == Some(|s|)
  {
    if s == [] {
      assert [] + [u] == [u];
    } else {
      assert !EqualNoCase(s[0].name, key);
      assert (s + [u])[1..] == s[1..] + [u];
      AppendedNameIsFound(s[1..], u, key);
    }
  }
}
