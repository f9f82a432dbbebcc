/** The lenient `;key[=value]` parameter-list parser (the generic-param
    syntax of section 25 of RFC 3261), stated as functions over a byte buffer
    and a cursor position: one iteration of the parse loop, and the whole
    loop. */
module ParamParse {
  import opened Wrappers
  import opened Bytes
  import opened Parameters

  /** The cursor's `skipWhitespace`: the first position at or after `pos`
      that does not hold whitespace. */
  function SkipWhitespace(buf: Data, pos: nat): (r: nat)
    requires pos <= |buf|
    ensures pos <= r <= |buf|
    ensures r == |buf| || buf[r] !in WHITESPACE
    decreases |buf| - pos
  {
    if pos == |buf| || buf[pos] !in WHITESPACE then pos else SkipWhitespace(buf, pos + 1)
  }

  /** Everything `SkipWhitespace` passes over is whitespace. */
  lemma {:induction false} SkipWhitespaceSkipsOnlyWhitespace(buf: Data, pos: nat)
    requires pos <= |buf|
    ensures forall k :: pos <= k < SkipWhitespace(buf, pos) ==> buf[k] in WHITESPACE
    decreases |buf| - pos
  {
    if pos < |buf| && buf[pos] in WHITESPACE {
      SkipWhitespaceSkipsOnlyWhitespace(buf, pos + 1);
    }
  }

  /** The cursor's `skipToOneOf`: the first position at or after `pos` that
      holds one of `terms`, or the end of the buffer. */
  function SkipToOneOf(buf: Data, pos: nat, terms: set<bv8>): (r: nat)
    requires pos <= |buf|
    ensures pos <= r <= |buf|
    ensures r == |buf| || buf[r] in terms
    decreases |buf| - pos
  {
    if pos == |buf| || buf[pos] in terms then pos else SkipToOneOf(buf, pos + 1, terms)
  }

  /** Nothing `SkipToOneOf` passes over is one of `terms`. */
  lemma {:induction false} SkipToOneOfSkipsNoTerminator(buf: Data, pos: nat, terms: set<bv8>)
    requires pos <= |buf|
    ensures forall k :: pos <= k < SkipToOneOf(buf, pos, terms) ==> buf[k] !in terms
    decreases |buf| - pos
  {
    if pos < |buf| && buf[pos] !in terms {
      SkipToOneOfSkipsNoTerminator(buf, pos + 1, terms);
    }
  }

  /** Whether the next non-whitespace byte at `pos` is the separator `;`. */
  predicate AtSeparator(buf: Data, pos: nat)
    requires pos <= |buf|
  {
    var w := SkipWhitespace(buf, pos);
    w < |buf| && buf[w] == SEMI_COLON
  }

  /** Where the key begins, after a separator found at `pos`. */
  function KeyStart(buf: Data, pos: nat): (r: nat)
    requires pos <= |buf| && AtSeparator(buf, pos)
    ensures SkipWhitespace(buf, pos) < r <= |buf|
  {
    SkipWhitespace(buf, SkipWhitespace(buf, pos) + 1)
  }

  /** Where the key ends, after a separator found at `pos`. */
  function KeyEnd(buf: Data, pos: nat): (r: nat)
    requires pos <= |buf| && AtSeparator(buf, pos)
    ensures KeyStart(buf, pos) <= r <= |buf|
  {
    SkipToOneOf(buf, KeyStart(buf, pos), KEY_TERMINATORS)
  }

  /** A key is the longest run after the separator (and the whitespace
      after it) that holds no key terminator: it stops at one of
      ` \t\r\n;=?>` or at the end of the buffer. */
  lemma KeyHasNoTerminator(buf: Data, pos: nat)
    requires pos <= |buf| && AtSeparator(buf, pos)
    ensures forall k :: KeyStart(buf, pos) <= k < KeyEnd(buf, pos) ==> buf[k] !in KEY_TERMINATORS
    ensures KeyEnd(buf, pos) == |buf| || buf[KeyEnd(buf, pos)] in KEY_TERMINATORS
  {
    SkipToOneOfSkipsNoTerminator(buf, KeyStart(buf, pos), KEY_TERMINATORS);
  }

  datatype Item = Typed(p: TypedParam) | Ext(u: UnknownParam)

  /** One iteration either stops (restoring the position it began at) or
      advances, with at most one parameter read. */
  datatype Step = Stop | Advance(item: Option<Item>, next: nat)

  /** One iteration of the loop of `parseParameters`, begun at `pos`. */
  function ParseStep(buf: Data, pos: nat, c: Codecs): (r: Step)
    requires pos <= |buf|
    ensures r.Stop? <==> !AtSeparator(buf, pos)
    ensures r.Advance? ==> SkipWhitespace(buf, pos) < r.next <= |buf| && KeyEnd(buf, pos) <= r.next
  {
    if !AtSeparator(buf, pos) then Stop
    else
      var keyStart := KeyStart(buf, pos);
      var keyEnd := KeyEnd(buf, pos);
      if keyEnd - keyStart == 0 then Advance(None, keyEnd)
      else
        var key := buf[keyStart..keyEnd];
        var t := c.getType(key);
        if t == Unknown then
          var s := c.scanUnknown(buf, keyEnd, VALUE_TERMINATORS);
          Advance(Some(Ext(UnknownParam(key, s.value, s.quoted))), s.next)
        else
          var d := c.factory(t, buf, keyEnd, VALUE_TERMINATORS);
          Advance(Some(Typed(d.param)), d.next)
  }

  /** What one iteration reads: nothing for an empty key, otherwise one
      parameter, typed when the registry knows the key (with the tag it
      gives) and an extension parameter named by the key when it does not. */
  lemma ParseStepItem(buf: Data, pos: nat, c: Codecs)
    requires pos <= |buf| && AtSeparator(buf, pos)
    ensures var r := ParseStep(buf, pos, c);
      var key := buf[KeyStart(buf, pos)..KeyEnd(buf, pos)];
      && (r.item.None? <==> key == [])
      && (r.item.None? ==> r.next == KeyEnd(buf, pos))
      && (r.item.Some? && r.item.value.Typed? ==>
            r.item.value.p.ptype == c.getType(key) && c.getType(key) != Unknown)
      && (r.item.Some? && r.item.value.Ext? ==>
            r.item.value.u.name == key && c.getType(key) == Unknown)
  {
  }

  /** The step at a separator, case by case, in terms of the key bounds. */
  lemma ParseStepCases(buf: Data, pos: nat, c: Codecs)
    requires pos <= |buf| && AtSeparator(buf, pos)
    ensures var ks, ke := KeyStart(buf, pos), KeyEnd(buf, pos);
      var key := buf[ks..ke];
      var scanned := c.scanUnknown(buf, ke, VALUE_TERMINATORS);
      var decoded := c.factory(c.getType(key), buf, ke, VALUE_TERMINATORS);
      ParseStep(buf, pos, c) ==
        if ke == ks then Advance(None, ke)
        else if c.getType(key) == Unknown then
          Advance(Some(Ext(UnknownParam(key, scanned.value, scanned.quoted))), scanned.next)
        else Advance(Some(Typed(decoded.param)), decoded.next)
  {
  }

  /** What the whole loop adds to the two lists, and where it leaves the
      cursor. */
  datatype Parsed = Parsed(typed: seq<TypedParam>, unknown: seq<UnknownParam>, end: nat)

  /** The typed parameter an iteration read, if any. */
  function TypedOf(item: Option<Item>): seq<TypedParam>
  {
    if item.Some? && item.value.Typed? then [item.value.p] else []
  }

  /** The extension parameter an iteration read, if any. */
  function UnknownOf(item: Option<Item>): seq<UnknownParam>
  {
    if item.Some? && item.value.Ext? then [item.value.u] else []
  }

  /** A run that first reads `item` and then goes on as `rest`. */
  function Prepend(item: Option<Item>, rest: Parsed): Parsed
  {
    Parsed(TypedOf(item) + rest.typed, UnknownOf(item) + rest.unknown, rest.end)
  }

  /** The loop of `parseParameters` run from `pos` to its end. */
  function ParseRun(buf: Data, pos: nat, c: Codecs): (r: Parsed)
    requires pos <= |buf|
    ensures pos <= r.end <= |buf|
    ensures !AtSeparator(buf, pos) ==> r == Parsed([], [], pos)
    decreases |buf| - pos
  {
    if pos == |buf| then Parsed([], [], pos)
    else match ParseStep(buf, pos, c)
      case Stop => Parsed([], [], pos)
      case Advance(item, next) => Prepend(item, ParseRun(buf, next, c))
  }

  /** The run from `pos` is `typed` and `unknown` followed by the run from
      `cur`: the loop invariant of `parseParameters`. */
  predicate Resumes(buf: Data, pos: nat, cur: nat, c: Codecs,
                    typed: seq<TypedParam>, unknown: seq<UnknownParam>)
    requires pos <= |buf| && cur <= |buf|
  {
    var rest := ParseRun(buf, cur, c);
    ParseRun(buf, pos, c) == Parsed(typed + rest.typed, unknown + rest.unknown, rest.end)
  }

  /** Before the loop nothing has been added. */
  lemma ResumesInitially(buf: Data, pos: nat, c: Codecs)
    requires pos <= |buf|
    ensures Resumes(buf, pos, pos, c, [], [])
  {
    var r := ParseRun(buf, pos, c);
    assert [] + r.typed == r.typed && [] + r.unknown == r.unknown;
  }

  /** Resuming a run after one more step: if the run from `pos` is what was
      added so far followed by the run from `start`, it is also what was
      added after the step at `start` followed by the run from where that
      step stopped. */
  lemma ParseRunResume(buf: Data, pos: nat, start: nat, c: Codecs, item: Option<Item>, next: nat,
                       typed: seq<TypedParam>, unknown: seq<UnknownParam>)
    requires start <= |buf| && pos <= |buf|
    requires ParseStep(buf, start, c) == Advance(item, next)
    requires Resumes(buf, pos, start, c, typed, unknown)
    ensures next <= |buf|
    ensures Resumes(buf, pos, next, c, typed + TypedOf(item), unknown + UnknownOf(item))
  {
    ParseRunAdvance(buf, start, c, item, next);
    PrependRegroups(ParseRun(buf, pos, c), ParseRun(buf, next, c), item, typed, unknown);
  }

  /** Regrouping behind `Resumes`: what was added, followed by one item and
      the rest, is what was added plus that item, followed by the rest. */
  lemma PrependRegroups(whole: Parsed, rest: Parsed, item: Option<Item>,
                        typed: seq<TypedParam>, unknown: seq<UnknownParam>)
    requires var mid := Prepend(item, rest);
      whole == Parsed(typed + mid.typed, unknown + mid.unknown, mid.end)
    ensures whole == Parsed((typed + TypedOf(item)) + rest.typed, (unknown + UnknownOf(item)) + rest.unknown, rest.end)
  {
    assert typed + (TypedOf(item) + rest.typed) == (typed + TypedOf(item)) + rest.typed;
    assert unknown + (UnknownOf(item) + rest.unknown) == (unknown + UnknownOf(item)) + rest.unknown;
  }

  /** Where the loop ends (at the end of the buffer, or where a step finds
      no separator) the run from `pos` is exactly what was added. */
  lemma ResumesFinally(buf: Data, pos: nat, cur: nat, c: Codecs,
                       typed: seq<TypedParam>, unknown: seq<UnknownParam>)
    requires pos <= |buf| && cur <= |buf| && Resumes(buf, pos, cur, c, typed, unknown)
    requires cur == |buf| || !AtSeparator(buf, cur)
    ensures ParseRun(buf, pos, c) == Parsed(typed, unknown, cur)
  {
    assert ParseRun(buf, cur, c) == Parsed([], [], cur);
    assert typed + [] == typed && unknown + [] == unknown;
  }

  /** The loop stops only where no further parameter begins: after the end
      position, the next non-whitespace byte is not `;`. */
  lemma {:induction false} ParseRunStopsBeforeNonSeparator(buf: Data, pos: nat, c: Codecs)
    requires pos <= |buf|
    ensures !AtSeparator(buf, ParseRun(buf, pos, c).end)
    decreases |buf| - pos
  {
    if pos < |buf| && AtSeparator(buf, pos) {
      ParseRunStopsBeforeNonSeparator(buf, ParseStep(buf, pos, c).next, c);
    }
  }

  /** Every typed parameter the parser adds has a tag the registry gave it,
      never `Unknown`; every extension parameter it adds has a non-empty
      name the registry does not know. */
  lemma {:induction false} ParseRunSortsByRegistry(buf: Data, pos: nat, c: Codecs)
    requires pos <= |buf|
    ensures forall p :: p in ParseRun(buf, pos, c).typed ==> p.ptype != Unknown
    ensures forall u :: u in ParseRun(buf, pos, c).unknown ==> u.name != [] && c.getType(u.name) == Unknown
    decreases |buf| - pos
  {
    if pos < |buf| && AtSeparator(buf, pos) {
      ParseStepItem(buf, pos, c);
      ParseRunSortsByRegistry(buf, ParseStep(buf, pos, c).next, c);
    }
  }

  /** How many times byte `b` occurs in `s`. */
  function Count(s: Data, b: bv8): nat
  {
    if s == [] then 0 else (if s[0] == b then 1 else 0) + Count(s[1..], b)
  }

  lemma {:induction false} CountConcat(s: Data, t: Data, b: bv8)
    ensures Count(s + t, b) == Count(s, b) + Count(t, b)
  {
    if s == [] {
      assert s + t == t;
    } else {
      assert (s + t)[0] == s[0];
      assert (s + t)[1..] == s[1..] + t;
      CountConcat(s[1..], t, b);
    }
  }

  lemma {:induction false} CountPositive(s: Data, k: nat, b: bv8)
    requires k < |s| && s[k] == b
    ensures Count(s, b) >= 1
  {
    if k > 0 {
      CountPositive(s[1..], k - 1, b);
    }
  }

  lemma SliceSplit(s: Data, i: nat, j: nat, k: nat)
    requires i <= j <= k <= |s|
    ensures s[i..k] == s[i..j] + s[j..k]
  {
  }

  /** How many parameters a run read. */
  function Size(r: Parsed): nat { |r.typed| + |r.unknown| }

  /** One iteration unfolded: an advancing step reads at most one parameter
      and the run goes on from where the step stopped. */
  lemma ParseRunUnfold(buf: Data, pos: nat, c: Codecs)
    requires pos < |buf| && AtSeparator(buf, pos)
    ensures var next := ParseStep(buf, pos, c).next;
      var r, rest := ParseRun(buf, pos, c), ParseRun(buf, next, c);
      r.end == rest.end && Size(r) <= Size(rest) + 1
  {
  }

  /** A run that begins at a separator is what its first step read followed
      by the run from where that step stopped. */
  lemma ParseRunAdvance(buf: Data, pos: nat, c: Codecs, item: Option<Item>, next: nat)
    requires pos <= |buf| && ParseStep(buf, pos, c) == Advance(item, next)
    ensures next <= |buf|
    ensures ParseRun(buf, pos, c) == Prepend(item, ParseRun(buf, next, c))
  {
  }

  /** Every parameter read used up its own `;` of the consumed text: the
      parser adds at most as many parameters as there are separators. */
  lemma {:induction false} ParseRunBoundedBySeparators(buf: Data, pos: nat, c: Codecs)
    requires pos <= |buf|
    ensures var r := ParseRun(buf, pos, c);
      Size(r) <= Count(buf[pos..r.end], SEMI_COLON)
    decreases |buf| - pos
  {
    var r := ParseRun(buf, pos, c);
    if pos < |buf| && AtSeparator(buf, pos) {
      var next := ParseStep(buf, pos, c).next;
      var end := ParseRun(buf, next, c).end;
      ParseRunUnfold(buf, pos, c);
      ParseRunBoundedBySeparators(buf, next, c);
      var w := SkipWhitespace(buf, pos);
      var head, tail := buf[pos..next], buf[next..end];
      SliceSplit(buf, pos, next, end);
      CountConcat(head, tail, SEMI_COLON);
      assert head[w - pos] == SEMI_COLON;
      CountPositive(head, w - pos, SEMI_COLON);
    } else {
      assert r.end == pos && Size(r) == 0;
    }
  }

  /** A lone `;` followed by a terminator is an empty key: it is skipped and
      nothing is added for it. */
  lemma EmptyKeyAddsNothing(buf: Data, pos: nat, c: Codecs)
    requires pos <= |buf| && AtSeparator(buf, pos)
    requires KeyStart(buf, pos) == KeyEnd(buf, pos)
    ensures ParseRun(buf, pos, c) == ParseRun(buf, KeyEnd(buf, pos), c)
  {
  }
}
