/** Fixed-width unsigned integers as sequences of bits, lowest bit first.

    A register, a dividend word and a truncated divisor are all read the same way: bit i is the
    coefficient of x^i, so the sequence is also a polynomial over GF(2). The width is generic, which
    is why these are sequences and not `bvN` values. */
module Words {

  type Word = seq<bool>

  type Byte = w: Word | |w| == 8 witness Zeros(8)

  function Zeros(n: nat): (r: Word)
    ensures |r| == n
  {
    seq(n, _ => false)
  }

  /** The word of width n that is zero outside bit k. */
  function BitAt(n: nat, k: nat, bit: bool): (r: Word)
    ensures |r| == n
  {
    seq(n, i => bit && i == k)
  }

  function OneHot(n: nat, k: nat): Word {
    BitAt(n, k, true)
  }

  function Xor(a: Word, b: Word): (r: Word)
    requires |a| == |b|
    ensures |r| == |a|
  {
    seq(|a|, i requires 0 <= i < |a| => a[i] != b[i])
  }

  function And(a: Word, b: Word): (r: Word)
    requires |a| == |b|
    ensures |r| == |a|
  {
    seq(|a|, i requires 0 <= i < |a| => a[i] && b[i])
  }

  function Or(a: Word, b: Word): (r: Word)
    requires |a| == |b|
    ensures |r| == |a|
  {
    seq(|a|, i requires 0 <= i < |a| => a[i] || b[i])
  }

  /** Left shift within the width: the k highest bits are lost. */
  function Shl(a: Word, k: nat): (r: Word)
    requires k <= |a|
    ensures |r| == |a|
  {
    Zeros(k) + a[..|a| - k]
  }

  function Shr(a: Word, k: nat): (r: Word)
    requires k <= |a|
    ensures |r| == |a|
  {
    a[k..] + Zeros(k)
  }

  function Reverse(a: Word): (r: Word)
    ensures |r| == |a|
  {
    seq(|a|, i requires 0 <= i < |a| => a[|a| - 1 - i])
  }

  /** Conversion between unsigned types: truncation, or extension by zeros. */
  function Resize(a: Word, width: nat): (r: Word)
    ensures |r| == width
  {
    if width <= |a| then a[..width] else a + Zeros(width - |a|)
  }

  function Pow2(n: nat): (r: nat)
    ensures r > 0
  {
    if n == 0 then 1 else 2 * Pow2(n - 1)
  }

  /** The numeric value of a word. */
  function ToNat(a: Word): nat {
    if a == [] then 0 else (if a[0] then 1 else 0) + 2 * ToNat(a[1..])
  }

  /** The word of width n holding v modulo 2^n. */
  function FromNat(n: nat, v: nat): (r: Word)
    ensures |r| == n
  {
    if n == 0 then [] else [v % 2 == 1] + FromNat(n - 1, v / 2)
  }

  lemma {:induction false} ToNatBound(a: Word)
    ensures ToNat(a) < Pow2(|a|)
  {
    if a != [] {
      ToNatBound(a[1..]);
    }
  }

  lemma {:induction false} FromToNat(a: Word)
    ensures FromNat(|a|, ToNat(a)) == a
  {
    if a != [] {
      FromToNat(a[1..]);
    }
  }

  lemma {:induction false} ToFromNat(n: nat, v: nat)
    requires v < Pow2(n)
    ensures ToNat(FromNat(n, v)) == v
  {
    if n != 0 {
      ToFromNat(n - 1, v / 2);
    }
  }

  /** A word holding a value below 2^n is the n-bit word padded with zeros. */
  lemma {:induction false} FromNatWider(n: nat, extra: nat, v: nat)
    requires v < Pow2(n)
    ensures FromNat(n + extra, v) == FromNat(n, v) + Zeros(extra)
  {
    if n != 0 {
      FromNatWider(n - 1, extra, v / 2);
    } else if extra != 0 {
      FromNatWider(0, extra - 1, 0);
    }
  }

  lemma {:induction false} ToNatPadded(a: Word, extra: nat)
    ensures ToNat(a + Zeros(extra)) == ToNat(a)
  {
    if a != [] {
      assert (a + Zeros(extra))[1..] == a[1..] + Zeros(extra);
      ToNatPadded(a[1..], extra);
    } else if extra != 0 {
      assert Zeros(extra)[1..] == Zeros(extra - 1);
      assert a + Zeros(extra) == Zeros(extra) && a + Zeros(extra - 1) == Zeros(extra - 1);
      ToNatPadded(a, extra - 1);
    }
  }

  lemma {:induction false} ToNatOneHot(n: nat, k: nat)
    requires k < n
    ensures ToNat(OneHot(n, k)) == Pow2(k)
  {
    if k == 0 {
      assert OneHot(n, 0)[1..] == [] + Zeros(n - 1);
      ToNatPadded([], n - 1);
    } else {
      assert OneHot(n, k)[1..] == OneHot(n - 1, k - 1);
      ToNatOneHot(n - 1, k - 1);
    }
  }

  lemma {:induction false} Pow2Monotonic(a: nat, b: nat)
    requires a < b
    ensures Pow2(a) < Pow2(b)
    decreases b
  {
    if a < b - 1 {
      Pow2Monotonic(a, b - 1);
    }
  }

  lemma ReverseTwice(a: Word)
    ensures Reverse(Reverse(a)) == a
  {
  }

  lemma ReverseXor(a: Word, b: Word)
    requires |a| == |b|
    ensures Reverse(Xor(a, b)) == Xor(Reverse(a), Reverse(b))
  {
  }

  lemma XorZeros(a: Word)
    ensures Xor(Zeros(|a|), a) == a == Xor(a, Zeros(|a|))
  {
  }

  lemma XorPrefix(a: Word, b: Word, n: nat)
    requires n <= |a| == |b|
    ensures Xor(a, b)[..n] == Xor(a[..n], b[..n]) && Xor(a, b)[n..] == Xor(a[n..], b[n..])
  {
  }

  /** Adding the same word to different words keeps them different. */
  lemma XorSeparates(a: Word, b: Word, c: Word)
    requires |a| == |b| == |c| && a != b
    ensures Xor(a, c) != Xor(b, c)
  {
    XorCancel(a, c);
    XorCancel(b, c);
  }

  lemma XorCancel(a: Word, b: Word)
    requires |a| == |b|
    ensures Xor(Xor(a, b), b) == a && (Xor(a, b) == Zeros(|a|) <==> a == b)
  {
    assert a == b ==> Xor(a, b) == Zeros(|a|);
    if Xor(a, b) == Zeros(|a|) {
      forall i | 0 <= i < |a| ensures a[i] == b[i] {
        assert !Xor(a, b)[i];
      }
    }
  }
}
