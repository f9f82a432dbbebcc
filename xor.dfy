/** XOR of byte strings of different lengths (resip's `Data::operator^=`)
    and the XOR-fold used by the commutative parameter hash.

    The operator's own source is not part of this model; its meaning is
    fixed here as: the result is as long as the longer operand, and the
    shorter operand is read as if padded with zero bytes. */
module DataXor {
  import opened Bytes

  function Max(a: nat, b: nat): nat { if a < b then b else a }

  /** Byte `i` of `a`, or zero past its end. */
  function ByteAt(a: Data, i: nat): bv8 { if i < |a| then a[i] else 0 }

  function Xor(a: Data, b: Data): (r: Data)
    ensures |r| == Max(|a|, |b|)
    ensures forall i :: 0 <= i < |r| ==> r[i] == ByteAt(a, i) ^ ByteAt(b, i)
  {
    seq(Max(|a|, |b|), i requires 0 <= i < Max(|a|, |b|) => ByteAt(a, i) ^ ByteAt(b, i))
  }

  function Zeros(n: nat): (r: Data)
    ensures |r| == n && forall i :: 0 <= i < n ==> r[i] == 0
  {
    seq(n, _ => 0)
  }

  lemma XorCommutative(a: Data, b: Data)
    ensures Xor(a, b) == Xor(b, a)
  {
    assert forall i :: 0 <= i < |Xor(a, b)| ==> Xor(a, b)[i] == Xor(b, a)[i];
  }

  /** Past the end of both operands, the zero padding XORs to zero. */
  lemma ByteAtXor(a: Data, b: Data, i: nat)
    ensures ByteAt(Xor(a, b), i) == ByteAt(a, i) ^ ByteAt(b, i)
  {
  }

  lemma XorAssociative(a: Data, b: Data, c: Data)
    ensures Xor(Xor(a, b), c) == Xor(a, Xor(b, c))
  {
    var l, r := Xor(Xor(a, b), c), Xor(a, Xor(b, c));
    assert |l| == |r|;
    forall i | 0 <= i < |l| ensures l[i] == r[i] {
      ByteAtXor(a, b, i);
      ByteAtXor(b, c, i);
      var x, y, z := ByteAt(a, i), ByteAt(b, i), ByteAt(c, i);
      assert (x ^ y) ^ z == x ^ (y ^ z);
    }
  }

  /** The empty string is the identity of XOR. */
  lemma XorEmpty(a: Data)
    ensures Xor(a, []) == a && Xor([], a) == a
  {
  }

  /** XOR-ing a string with itself does not give back the empty string but
      zero bytes of the same length: under this padding rule a repeated
      operand cancels only up to trailing zeros. */
  lemma XorSelf(a: Data)
    ensures Xor(a, a) == Zeros(|a|)
  {
  }

  /** Swapping the last two operands of a chain does not change it. */
  lemma XorSwapLast(a: Data, b: Data, c: Data)
    ensures Xor(Xor(a, b), c) == Xor(Xor(a, c), b)
  {
    XorAssociative(a, b, c);
    XorCommutative(b, c);
    XorAssociative(a, c, b);
  }

  /** `acc` XOR-ed with `f(x)` for every `x` of `s`, left to right: the
      accumulating loop `working ^= buffer`. */
  function XorFold<T>(acc: Data, s: seq<T>, f: T -> Data): Data
  {
    if s == [] then acc else Xor(XorFold(acc, s[..|s| - 1], f), f(s[|s| - 1]))
  }

  lemma XorFoldStep<T>(acc: Data, s: seq<T>, i: nat, f: T -> Data)
    requires i < |s|
    ensures XorFold(acc, s[..i + 1], f) == Xor(XorFold(acc, s[..i], f), f(s[i]))
  {
    assert s[..i + 1][..i] == s[..i];
  }

  /** Any one element can be taken out of the fold and XOR-ed in last. */
  lemma {:induction false} XorFoldRemove<T>(acc: Data, s: seq<T>, j: nat, f: T -> Data)
    requires j < |s|
    ensures XorFold(acc, s, f) == Xor(XorFold(acc, s[..j] + s[j + 1..], f), f(s[j]))
  {
    var n := |s| - 1;
    if j == n {
      assert s[..j] + s[j + 1..] == s[..n];
    } else {
      var u := s[..n][..j] + s[..n][j + 1..];
      XorFoldRemove(acc, s[..n], j, f);
      assert s[..j] + s[j + 1..] == u + [s[n]];
      assert (u + [s[n]])[..|u|] == u;
      XorSwapLast(XorFold(acc, u, f), f(s[j]), f(s[n]));
    }
  }

  /** The fold depends only on the multiset of its elements, not on their
      order. */
  lemma {:induction false} XorFoldPermutation<T>(acc: Data, s: seq<T>, t: seq<T>, f: T -> Data)
    requires multiset(s) == multiset(t)
    ensures XorFold(acc, s, f) == XorFold(acc, t, f)
    decreases |s|
  {
    if s == [] {
      assert |t| == |multiset(t)| == 0;
    } else {
      var n := |s| - 1;
      var x := s[n];
      assert s == s[..n] + [x];
      assert x in multiset(t);
      var j :| 0 <= j < |t| && t[j] == x;
      var t' := t[..j] + t[j + 1..];
      assert t == t[..j] + [x] + t[j + 1..];
      assert multiset(t') == multiset(t) - multiset{x};
      assert multiset(s[..n]) == multiset(s) - multiset{x};
      XorFoldPermutation(acc, s[..n], t', f);
      XorFoldRemove(acc, t, j, f);
    }
  }
}
