/** Order-preserving filtering of a list: the abstract effect of the
    erase-while-iterating loops over a parameter list. */
module Seqs {

  /** The elements of `s` for which `keep` holds, in their original order. */
  function Filter<T(!new)>(s: seq<T>, keep: T -> bool): (r: seq<T>)
    ensures |r| <= |s|
    ensures forall x :: x in r <==> x in s && keep(x)
  {
    if s == [] then []
    else Filter(s[..|s| - 1], keep) + (if keep(s[|s| - 1]) then [s[|s| - 1]] else [])
  }

  /** Filtering distributes over concatenation: the kept elements of an
      earlier part come before those of a later part. */
  lemma {:induction false} FilterConcat<T(!new)>(a: seq<T>, b: seq<T>, keep: T -> bool)
    ensures Filter(a + b, keep) == Filter(a, keep) + Filter(b, keep)
  {
    if b == [] {
      assert a + b == a;
    } else {
      var n := |b| - 1;
      assert (a + b)[..|a + b| - 1] == a + b[..n];
      assert (a + b)[|a + b| - 1] == b[n];
      FilterConcat(a, b[..n], keep);
    }
  }

  /** One step of a scan: the filtered prefix grows by the next element
      exactly when that element is kept. */
  lemma FilterStep<T(!new)>(s: seq<T>, i: nat, keep: T -> bool)
    requires i < |s|
    ensures Filter(s[..i + 1], keep) == Filter(s[..i], keep) + (if keep(s[i]) then [s[i]] else [])
  {
    assert s[..i + 1][..i] == s[..i];
  }

  /** One iteration of an erase-while-iterating loop over `s`, a list whose
      first `i` entries are the kept ones among the first `k` of the
      original `o` and whose remaining entries are `o`'s remaining ones:
      erasing entry `i` if it is not kept, or stepping past it if it is,
      leaves the same shape one original entry further on. */
  lemma FilterEraseStep<T(!new)>(o: seq<T>, s: seq<T>, i: nat, k: nat, keep: T -> bool)
    requires k < |o| && i < |s|
    requires s[..i] == Filter(o[..k], keep) && s[i..] == o[k..]
    ensures s[i] == o[k]
    ensures keep(s[i]) ==> s[..i + 1] == Filter(o[..k + 1], keep) && s[i + 1..] == o[k + 1..]
    ensures !keep(s[i]) ==> var s' := s[..i] + s[i + 1..];
      s'[..i] == Filter(o[..k + 1], keep) && s'[i..] == o[k + 1..]
  {
    assert s[i] == s[i..][0] == o[k..][0] == o[k];
    FilterStep(o, k, keep);
    assert s[..i + 1] == s[..i] + [s[i]];
    assert s[i + 1..] == s[i..][1..];
    assert o[k + 1..] == o[k..][1..];
  }

  /** When every element is kept, filtering changes nothing. */
  lemma {:induction false} FilterKeepsAll<T(!new)>(s: seq<T>, keep: T -> bool)
    requires forall x :: x in s ==> keep(x)
    ensures Filter(s, keep) == s
  {
    if s != [] {
      FilterKeepsAll(s[..|s| - 1], keep);
      assert s[..|s| - 1] + [s[|s| - 1]] == s;
    }
  }
}
