/** `ParserCategory`: the parameter store of one header value. It owns the
    typed parameters (`mParameters`) and the extension parameters
    (`mUnknownParameters`), both in insertion order, and the header type
    used for diagnostics. The queries are functions of these fields and the
    mutators change the lists in place. The methods that search, erase,
    replace, parse, encode or hash are proved against the list functions of
    `Parameters`, `ParamParse` and `ParamEncode`, about which the properties
    are proved. */
module Category {
  import opened Wrappers
  import opened Bytes
  import opened Seqs
  import opened DataXor
  import opened Parameters
  import opened ParamParse
  import opened ParamEncode

  /** `Headers::Type`: `NoHeader` for a request or status line, otherwise
      the header, identified by the name `Headers::getHeaderName` gives it. */
  datatype HeaderType = NoHeader | Header(name: Data)

  const REQUEST_STATUS_LINE: Data := Ascii("Request/Status line")
  const QOP: Data := Ascii("qop")

  class ParserCategory {
    var params: seq<TypedParam>
    var unknowns: seq<UnknownParam>
    var headerType: HeaderType

    /** A category with no parameters yet. */
    constructor (headerType: HeaderType)
      ensures params == [] && unknowns == [] && this.headerType == headerType
    {
      params := [];
      unknowns := [];
      this.headerType := headerType;
    }

    /** The copy constructor: both lists are copied, in order, only when
        `rhs` has been parsed (`rhsParsed` is its lazy parser's state). */
    constructor Copy(rhs: ParserCategory, rhsParsed: bool)
      ensures headerType == rhs.headerType
      ensures params == (if rhsParsed then rhs.params else [])
      ensures unknowns == (if rhsParsed then rhs.unknowns else [])
    {
      params := [];
      unknowns := [];
      headerType := rhs.headerType;
      new;
      if rhsParsed {
        CopyParametersFrom(rhs);
      }
    }

    /** Assignment: clear, take the header type, and copy the parameters
        when `rhs` has been parsed; assigning an object to itself does
        nothing. */
    method Assign(rhs: ParserCategory, rhsParsed: bool)
      modifies this
      ensures rhs == this ==> params == old(params) && unknowns == old(unknowns) && headerType == old(headerType)
      ensures rhs != this ==> headerType == rhs.headerType
      ensures rhs != this ==> params == (if rhsParsed then rhs.params else [])
      ensures rhs != this ==> unknowns == (if rhsParsed then rhs.unknowns else [])
    {
      if this != rhs {
        Clear();
        headerType := rhs.headerType;
        if rhsParsed {
          CopyParametersFrom(rhs);
        }
      }
    }

    /** Both lists emptied (every parameter released). */
    method Clear()
      modifies this
      ensures params == [] && unknowns == [] && headerType == old(headerType)
    {
      params := [];
      unknowns := [];
    }

    /** A copy of each of `other`'s parameters appended, in order, to the
        matching list. */
    method CopyParametersFrom(other: ParserCategory)
      requires other != this
      modifies this
      ensures params == old(params) + other.params
      ensures unknowns == old(unknowns) + other.unknowns
      ensures headerType == old(headerType)
    {
      for i := 0 to |other.params|
        invariant params == old(params) + other.params[..i]
        invariant unknowns == old(unknowns) && headerType == old(headerType)
      {
        params := params + [other.params[i]];
      }
      assert other.params[..|other.params|] == other.params;
      for i := 0 to |other.unknowns|
        invariant params == old(params) + other.params
        invariant unknowns == old(unknowns) + other.unknowns[..i]
        invariant headerType == old(headerType)
      {
        unknowns := unknowns + [other.unknowns[i]];
      }
      assert other.unknowns[..|other.unknowns|] == other.unknowns;
    }

    // -------------------------------------------------------------------
    // Queries

    /** getParameterByEnum: the index of the first typed parameter of tag
        `t`, or none. */
    method GetParameterByEnum(t: ParamType) returns (r: Option<nat>)
      ensures r == FindType(params, t)
    {
      var i := 0;
      while i < |params|
        invariant i <= |params|
        invariant forall j :: 0 <= j < i ==> params[j].ptype != t
      {
        if params[i].ptype == t {
          return Some(i);
        }
        i := i + 1;
      }
      return None;
    }

    /** getParameterByData: the index of the first extension parameter
        whose name equals `key` ignoring case, or none. */
    method GetParameterByData(key: Data) returns (r: Option<nat>)
      ensures r == FindName(unknowns, key)
    {
      var i := 0;
      while i < |unknowns|
        invariant i <= |unknowns|
        invariant forall j :: 0 <= j < i ==> !EqualNoCase(unknowns[j].name, key)
      {
        if EqualNoCase(unknowns[i].name, key) {
          return Some(i);
        }
        i := i + 1;
      }
      return None;
    }

    /** exists(ParamBase): some typed parameter has tag `t`. */
    function Exists(t: ParamType): (r: bool)
      reads this
      ensures r <==> exists i :: 0 <= i < |params| && params[i].ptype == t
    {
      FindType(params, t).Some?
    }

    /** exists(ExtensionParameter): some extension parameter has this name,
        ignoring case. */
    function ExistsExtension(name: Data): (r: bool)
      reads this
      ensures r <==> exists i :: 0 <= i < |unknowns| && EqualNoCase(unknowns[i].name, name)
    {
      FindName(unknowns, name).Some?
    }

    /** The strict `param(ExtensionParameter) const`: the value of the first
        extension parameter of that name (ignoring case), or
        `MissingParameter` when there is none. */
    function ParamExtensionConst(name: Data): (r: Result<Data, ParamError>)
      reads this
      ensures r.Failure? <==> !ExistsExtension(name)
      ensures r.Failure? ==> r.error == MissingParameter(name)
      ensures r.Success? ==> exists i :: 0 <= i < |unknowns| && EqualNoCase(unknowns[i].name, name)
                                        && unknowns[i].value == r.value
                                        && forall j :: 0 <= j < i ==> !EqualNoCase(unknowns[j].name, name)
    {
      match FindName(unknowns, name)
      case None => Failure(MissingParameter(name))
      case Some(i) => Success(unknowns[i].value)
    }

    /** The strict `param(qopOptions_Param) const`: the value of the first
        `qop` parameter, or `MissingParameter` when there is none. */
    function ParamQopConst(): (r: Result<Data, ParamError>)
      reads this
      ensures r.Failure? <==> !Exists(QopOptions)
      ensures r.Failure? ==> r.error == MissingParameter(QOP)
      ensures r.Success? ==> exists i :: 0 <= i < |params| && params[i].ptype == QopOptions
                                        && params[i].value == r.value
                                        && forall j :: 0 <= j < i ==> params[j].ptype != QopOptions
    {
      match FindType(params, QopOptions)
      case None => Failure(MissingParameter(QOP))
      case Some(i) => Success(params[i].value)
    }

    /** errorContext: the header's name, or "Request/Status line" for a
        start line. */
    function ErrorContext(): (r: Data)
      reads this
      ensures headerType.NoHeader? ==> r == REQUEST_STATUS_LINE
      ensures headerType.Header? ==> r == headerType.name
    {
      match headerType
      case NoHeader => REQUEST_STATUS_LINE
      case Header(name) => name
    }

    // -------------------------------------------------------------------
    // Creating accessors

    /** The non-const `param(ExtensionParameter)`: the index of the first
        extension parameter of that name (ignoring case), appending one with
        an empty value when there is none. The returned index stands for
        the reference to its value. */
    method ParamExtension(name: Data) returns (i: nat)
      modifies this
      ensures ExistsExtension(name) && i < |unknowns| && FindName(unknowns, name) == Some(i)
      ensures old(ExistsExtension(name)) ==> unknowns == old(unknowns)
      ensures !old(ExistsExtension(name)) ==>
        unknowns == old(unknowns) + [UnknownParam(name, [], false)] && i == |old(unknowns)|
      ensures params == old(params) && headerType == old(headerType)
    {
      var found := GetParameterByData(name);
      if found.Some? {
        i := found.value;
      } else {
        EqualNoCaseIsEquivalence(name, name, name);
        AppendedNameIsFound(unknowns, UnknownParam(name, [], false), name);
        unknowns := unknowns + [UnknownParam(name, [], false)];
        i := |unknowns| - 1;
      }
    }

    /** The non-const `param(qopOptions_Param)`: the index of the first `qop`
        parameter, appending an empty one that encodes quoted when there is
        none. */
    method ParamQop() returns (i: nat)
      modifies this
      ensures Exists(QopOptions) && i < |params| && FindType(params, QopOptions) == Some(i)
      ensures old(Exists(QopOptions)) ==> params == old(params)
      ensures !old(Exists(QopOptions)) ==>
        params == old(params) + [TypedParam(QopOptions, [], true)] && i == |old(params)|
      ensures unknowns == old(unknowns) && headerType == old(headerType)
    {
      var found := GetParameterByEnum(QopOptions);
      if found.Some? {
        i := found.value;
      } else {
        var p := TypedParam(QopOptions, [], true);
        AppendedTypeIsFound(params, p);
        params := params + [p];
        i := |params| - 1;
      }
    }

    // -------------------------------------------------------------------
    // Mutators

    /** removeParameterByEnum (and `remove(ParamBase)`): every typed
        parameter of tag `t` is erased, the others keep their order. */
    method RemoveParameterByEnum(t: ParamType)
      modifies this
      ensures params == WithoutType(old(params), t)
      ensures unknowns == old(unknowns) && headerType == old(headerType)
    {
      ghost var k := 0;   // entries of the original list examined so far
      var i := 0;
      while i < |params|
        invariant k <= |old(params)| && i <= |params|
        invariant params[..i] == Filter(old(params)[..k], KeepOtherTypes(t))
        invariant params[i..] == old(params)[k..]
        invariant unknowns == old(unknowns) && headerType == old(headerType)
        decreases |params| - i
      {
        FilterEraseStep(old(params), params, i, k, KeepOtherTypes(t));
        if params[i].ptype == t {
          params := params[..i] + params[i + 1..];
        } else {
          i := i + 1;
        }
        k := k + 1;
      }
      assert old(params)[..k] == old(params);
    }

    /** removeParameterByData (and `remove(ExtensionParameter)`): every
        extension parameter whose name is exactly `key` (case-sensitive) is
        erased, the others keep their order. */
    method RemoveParameterByData(key: Data)
      modifies this
      ensures unknowns == WithoutName(old(unknowns), key)
      ensures params == old(params) && headerType == old(headerType)
    {
      ghost var k := 0;
      var i := 0;
      while i < |unknowns|
        invariant k <= |old(unknowns)| && i <= |unknowns|
        invariant unknowns[..i] == Filter(old(unknowns)[..k], KeepOtherNames(key))
        invariant unknowns[i..] == old(unknowns)[k..]
        invariant params == old(params) && headerType == old(headerType)
        decreases |unknowns| - i
      {
        FilterEraseStep(old(unknowns), unknowns, i, k, KeepOtherNames(key));
        if unknowns[i].name == key {
          unknowns := unknowns[..i] + unknowns[i + 1..];
        } else {
          i := i + 1;
        }
        k := k + 1;
      }
      assert old(unknowns)[..k] == old(unknowns);
    }

    /** removeParametersExcept: every typed parameter whose tag is not in
        `allowed` is erased, the others keep their order; extension
        parameters are untouched. */
    method RemoveParametersExcept(allowed: set<ParamType>)
      modifies this
      ensures params == OnlyTypes(old(params), allowed)
      ensures unknowns == old(unknowns) && headerType == old(headerType)
    {
      ghost var k := 0;
      var i := 0;
      while i < |params|
        invariant k <= |old(params)| && i <= |params|
        invariant params[..i] == Filter(old(params)[..k], KeepTypesIn(allowed))
        invariant params[i..] == old(params)[k..]
        invariant unknowns == old(unknowns) && headerType == old(headerType)
        decreases |params| - i
      {
        FilterEraseStep(old(params), params, i, k, KeepTypesIn(allowed));
        if params[i].ptype !in allowed {
          params := params[..i] + params[i + 1..];
        } else {
          i := i + 1;
        }
        k := k + 1;
      }
      assert old(params)[..k] == old(params);
    }

    /** setParameter: the first typed parameter of `p`'s tag, if any, is
        erased, and `p` is appended. */
    method SetParameter(p: TypedParam)
      modifies this
      ensures params == SetParam(old(params), p)
      ensures unknowns == old(unknowns) && headerType == old(headerType)
    {
      var i := 0;
      while i < |params|
        invariant i <= |params| && params == old(params)
        invariant forall j :: 0 <= j < i ==> params[j].ptype != p.ptype
      {
        if params[i].ptype == p.ptype {
          assert FindType(params, p.ptype) == Some(i);
          params := params[..i] + params[i + 1..] + [p];
          return;
        }
        i := i + 1;
      }
      params := params + [p];
    }

    // -------------------------------------------------------------------
    // Parsing, encoding, hashing

    /** parseParameters: reads `;key[=value]` parameters from `buf` starting
        at `pos`, appending each to the list its key's registry entry picks,
        and returns the position where the cursor is left. */
    method ParseParameters(buf: Data, pos: nat, c: Codecs) returns (end: nat)
      requires pos <= |buf|
      modifies this
      ensures params == old(params) + ParseRun(buf, pos, c).typed
      ensures unknowns == old(unknowns) + ParseRun(buf, pos, c).unknown
      ensures end == ParseRun(buf, pos, c).end
      ensures headerType == old(headerType)
    {
      var cur := pos;
      ghost var addedTyped: seq<TypedParam> := [];
      ghost var addedUnknown: seq<UnknownParam> := [];
      ResumesInitially(buf, pos, c);
      while cur < |buf|
        invariant pos <= cur <= |buf|
        invariant params == old(params) + addedTyped && unknowns == old(unknowns) + addedUnknown
        invariant headerType == old(headerType)
        invariant Resumes(buf, pos, cur, c, addedTyped, addedUnknown)
        decreases |buf| - cur
      {
        var start := cur;
        var stop;
        ghost var item;
        cur, stop, item := ParseOneParameter(buf, start, c);
        if stop {
          ResumesFinally(buf, pos, start, c, addedTyped, addedUnknown);
          return start;
        }
        ParseRunResume(buf, pos, start, c, item, cur, addedTyped, addedUnknown);
        addedTyped := addedTyped + TypedOf(item);
        addedUnknown := addedUnknown + UnknownOf(item);
      }
      ResumesFinally(buf, pos, cur, c, addedTyped, addedUnknown);
      return cur;
    }

    /** One iteration of the loop of parseParameters, begun at `start`: it
        either finds no separator and stops, leaving everything as it was,
        or reads one separator and key and appends at most one parameter.
        `item` is what the iteration read. */
    method ParseOneParameter(buf: Data, start: nat, c: Codecs) returns (next: nat, stop: bool, ghost item: Option<Item>)
      requires start < |buf|
      modifies this
      ensures stop ==> ParseStep(buf, start, c) == Stop && item == None
      ensures !stop ==> ParseStep(buf, start, c) == Advance(item, next)
      ensures params == old(params) + TypedOf(item)
      ensures unknowns == old(unknowns) + UnknownOf(item)
      ensures headerType == old(headerType)
    {
      var cur := SkipWhitespace(buf, start);
      if cur < |buf| && buf[cur] == SEMI_COLON {
        ParseStepCases(buf, start, c);
        stop := false;
        cur := cur + 1;
        var keyStart := SkipWhitespace(buf, cur);
        var keyEnd := SkipToOneOf(buf, keyStart, KEY_TERMINATORS);
        cur := keyEnd;
        item := None;
        if keyEnd - keyStart != 0 {
          var key := buf[keyStart..keyEnd];
          var t := c.getType(key);
          if t == Unknown {
            var scanned := c.scanUnknown(buf, cur, VALUE_TERMINATORS);
            var u := UnknownParam(key, scanned.value, scanned.quoted);
            unknowns := unknowns + [u];
            item := Some(Ext(u));
            cur := scanned.next;
          } else {
            var decoded := c.factory(t, buf, cur, VALUE_TERMINATORS);
            params := params + [decoded.param];
            item := Some(Typed(decoded.param));
            cur := decoded.next;
          }
        }
        next := cur;
      } else {
        next, stop, item := start, true, None;
      }
    }

    /** encodeParameters: the encoded parameter list. */
    method EncodeParameters(c: Codecs) returns (out: Data)
      ensures out == Encoding(c, params, unknowns)
    {
      out := [];
      ghost var spaced := FindName(unknowns, MSGR).Some?;
      for i := 0 to |params|
        invariant out == TypedPass(c, params[..i], spaced)
      {
        TypedPassStep(c, params, i, spaced);
        var separator: Data := [SEMI_COLON];
        if i == 0 {
          var msgr := GetParameterByData(MSGR);
          if msgr.Some? {
            separator := separator + [SPACE];
          }
        }
        out := out + separator + c.encodeTyped(params[i]);
      }
      assert params[..|params|] == params;
      for j := 0 to |unknowns|
        invariant out == TypedPass(c, params, spaced) + UnknownPieces(c, unknowns[..j])
      {
        UnknownPiecesStep(c, unknowns, j);
        out := out + [SEMI_COLON] + c.encodeUnknown(unknowns[j]);
      }
      assert unknowns[..|unknowns|] == unknowns;
    }

    /** commutativeParameterHash: the XOR of the encoding of every typed
        parameter but `lr` and of name-then-value of every extension
        parameter. */
    method CommutativeParameterHash(c: Codecs) returns (working: Data)
      ensures working == Hash(c, params, unknowns)
    {
      working := [];
      for i := 0 to |params|
        invariant working == XorFold([], params[..i], TypedHashFn(c))
      {
        XorFoldStep([], params, i, TypedHashFn(c));
        if params[i].ptype != Lr {
          var buffer := c.encodeTyped(params[i]);
          working := Xor(working, buffer);
        } else {
          XorEmpty(working);
        }
      }
      assert params[..|params|] == params;
      ghost var typed := working;
      for j := 0 to |unknowns|
        invariant working == XorFold(typed, unknowns[..j], UnknownHashFn())
      {
        XorFoldStep(typed, unknowns, j, UnknownHashFn());
        var buffer := unknowns[j].name + unknowns[j].value;
        working := Xor(working, buffer);
      }
      assert unknowns[..|unknowns|] == unknowns;
    }
  }
}
