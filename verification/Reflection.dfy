/** Bit reversal of the low part of a word, as a loop over a closing pair of masks and as a table. */
module Reflection {
  import opened Words

  /** The low n bits reversed, the others kept. */
  function ReflectLow(x: Word, n: nat): (y: Word)
    requires n <= |x|
    ensures |y| == |x|
  {
    Reverse(x[..n]) + x[n..]
  }

  /** The bits of a word in the order a division reads them. */
  function InOrder(word: Word, reflect: bool): Word {
    if reflect then word else Reverse(word)
  }

  lemma ReflectLowTwice(x: Word, n: nat)
    requires n <= |x|
    ensures ReflectLow(ReflectLow(x, n), n) == x
  {
    assert ReflectLow(x, n)[..n] == Reverse(x[..n]);
    ReverseTwice(x[..n]);
  }

  /** The word whose outermost i pairs of low bits are already exchanged. */
  function PartlyReflected(x: Word, n: nat, i: nat): (y: Word)
    requires n <= |x|
    ensures |y| == |x|
  {
    seq(|x|, j requires 0 <= j < |x| => if j < n && (j < i || n - i <= j) then x[n - 1 - j] else x[j])
  }

  /** One round of the loop: exactly one of the two masked bits set means both must flip. */
  function ExchangeMasked(x: Word, l: Word, h: Word): (y: Word)
    requires |x| == |l| == |h|
    ensures |y| == |x|
  {
    var m := Or(h, l);
    var t := And(x, m);
    if t == h || t == l then Xor(x, m) else x
  }

  lemma ExchangePair(x: Word, n: nat, i: nat)
    requires n <= |x| && i < n - 1 - i
    ensures ExchangeMasked(PartlyReflected(x, n, i), OneHot(|x|, i), OneHot(|x|, n - 1 - i))
         == PartlyReflected(x, n, i + 1)
  {
    var y, m := PartlyReflected(x, n, i), Or(OneHot(|x|, n - 1 - i), OneHot(|x|, i));
    SelectedBits(y, i, n - 1 - i);
    if y[i] != y[n - 1 - i] {
      assert PartlyReflected(x, n, i + 1) == Xor(y, m);
    } else {
      assert PartlyReflected(x, n, i + 1) == y;
    }
  }

  method ReflectUnsigned(word: Word, wordLength: nat) returns (x: Word)
    requires 0 < wordLength <= |word|
    ensures x == ReflectLow(word, wordLength)
  {
    x := word;
    var l := OneHot(|word|, 0);
    var h := Shl(l, wordLength - 1);
    ghost var i := 0;
    FirstMasks(word, wordLength);
    while ToNat(h) > ToNat(l)
      invariant 0 <= i < wordLength
      invariant l == OneHot(|word|, i) && h == OneHot(|word|, wordLength - 1 - i)
      invariant x == PartlyReflected(word, wordLength, i)
      decreases wordLength - i
    {
      MasksInOrder(|word|, i, wordLength - 1 - i);
      ExchangePair(word, wordLength, i);
      ShiftMasks(|word|, i, wordLength - 1 - i);
      var m := Or(h, l);
      var t := And(x, m);
      if t == h || t == l {
        x := Xor(x, m);
      }
      h := Shr(h, 1);
      l := Shl(l, 1);
      i := i + 1;
    }
    MasksInOrder(|word|, i, wordLength - 1 - i);
    AllExchanged(word, wordLength, i);
  }

  lemma FirstMasks(x: Word, n: nat)
    requires 0 < n <= |x|
    ensures Shl(OneHot(|x|, 0), n - 1) == OneHot(|x|, n - 1) && x == PartlyReflected(x, n, 0)
  {
  }

  lemma ShiftMasks(n: nat, i: nat, j: nat)
    requires i < j < n
    ensures Shl(OneHot(n, i), 1) == OneHot(n, i + 1) && Shr(OneHot(n, j), 1) == OneHot(n, j - 1)
  {
  }

  lemma AllExchanged(x: Word, n: nat, i: nat)
    requires i < n <= |x| && n - 1 - i <= i
    ensures PartlyReflected(x, n, i) == ReflectLow(x, n)
  {
  }

  /** Comparing two one-bit masks as numbers compares their positions. */
  lemma MasksInOrder(n: nat, i: nat, j: nat)
    requires i < n && j < n
    ensures ToNat(OneHot(n, j)) > ToNat(OneHot(n, i)) <==> j > i
  {
    ToNatOneHot(n, i);
    ToNatOneHot(n, j);
    if j > i {
      Pow2Monotonic(i, j);
    } else if j < i {
      Pow2Monotonic(j, i);
    }
  }

  /** Exactly one of the two masked bits is set when the masked value is one of the masks. */
  lemma SelectedBits(x: Word, i: nat, j: nat)
    requires i < j < |x|
    ensures var l, h := OneHot(|x|, i), OneHot(|x|, j);
            var t := And(x, Or(h, l));
            (t == h || t == l) <==> x[i] != x[j]
  {
    var l, h := OneHot(|x|, i), OneHot(|x|, j);
    var t := And(x, Or(h, l));
    assert t[i] == x[i] && t[j] == x[j];
    assert l[i] && !l[j] && h[j] && !h[i];
    if x[i] != x[j] {
      assert t == if x[i] then l else h;
    }
  }

  method ReflectOptionally(word: Word, reflect: bool, wordLength: nat) returns (x: Word)
    requires 0 < wordLength <= |word|
    ensures x == if reflect then ReflectLow(word, wordLength) else word
  {
    if reflect {
      x := ReflectUnsigned(word, wordLength);
    } else {
      x := word;
    }
  }

  /** The do-while loop whose counter wraps to zero after the last of the 256 byte values. */
  method MakeByteReflectionTable() returns (table: array<Byte>)
    ensures fresh(table) && table.Length == 256
    ensures forall x: Byte :: ToNat(x) < 256 && table[ToNat(x)] == Reverse(x)
  {
    table := new Byte[256];
    BytesBelow256();
    var i := 0;
    var again := true;
    while again
      invariant 0 <= i < 256
      invariant forall x: Byte :: ToNat(x) < (if again then i else 256) ==> table[ToNat(x)] == Reverse(x)
      decreases if again then 256 - i else 0
    {
      var byte := ByteOf(i);
      table[i] := ReflectUnsigned(byte, 8);
      i := (i + 1) % 256;
      again := i != 0;
    }
  }

  lemma BytesBelow256()
    ensures forall x: Byte :: ToNat(x) < 256
  {
    assert Pow2(4) == 16 && Pow2(8) == 256;
    forall x: Byte ensures ToNat(x) < 256 {
      ToNatBound(x);
    }
  }

  /** The only byte with the given value, all of whose bits a reflection by eight reverses. */
  method ByteOf(v: nat) returns (byte: Byte)
    requires v < 256
    ensures ToNat(byte) == v && ReflectLow(byte, 8) == Reverse(byte)
    ensures forall x: Byte :: ToNat(x) == v ==> x == byte
  {
    byte := FromNat(8, v);
    assert byte[..8] == byte;
    assert Pow2(4) == 16 && Pow2(8) == 256;
    ToFromNat(8, v);
    forall x: Byte | ToNat(x) == v ensures x == byte {
      FromToNat(x);
    }
  }

  method ReflectByte(x: Byte) returns (y: Byte)
    ensures y == Reverse(x)
  {
    var table := MakeByteReflectionTable();
    y := table[ToNat(x)];
  }

  /** The low n bits mirrored, the others cleared: the sub-byte reflection on a word of any width. */
  function SubByteReflected(x: Word, n: nat): Word
    requires n <= |x|
  {
    Reverse(x[..n]) + Zeros(|x| - n)
  }

  /** The general reflection, which the sub-byte form is documented to return, keeps the higher bits.
      So the two agree exactly on the words that have none. */
  lemma SubByteReflectsIffNothingAbove(x: Word, n: nat)
    requires n <= |x|
    ensures SubByteReflected(x, n) == ReflectLow(x, n) <==> x[n..] == Zeros(|x| - n)
  {
    assert SubByteReflected(x, n)[n..] == Zeros(|x| - n);
    assert ReflectLow(x, n)[n..] == x[n..];
  }

  /** For every count below the width, the lone bit just above the count is lost. */
  lemma SubByteLosesLoneBit(width: nat, n: nat)
    requires n < width
    ensures SubByteReflected(OneHot(width, n), n) == Zeros(width)
    ensures ReflectLow(OneHot(width, n), n) == OneHot(width, n) != Zeros(width)
  {
    assert OneHot(width, n)[n] && !Zeros(width)[n];
    assert Reverse(OneHot(width, n)[..n]) == Zeros(n) == OneHot(width, n)[..n];
  }

  /** Agrees with the general reflection on the low bits and, unlike it, clears the others. */
  method ReflectSubByte(x: Byte, wordLength: nat) returns (y: Byte)
    requires 0 < wordLength <= 8
    ensures y == SubByteReflected(x, wordLength)
    ensures y[..wordLength] == ReflectLow(x, wordLength)[..wordLength] == Reverse(x[..wordLength])
    ensures y[wordLength..] == Zeros(8 - wordLength)
    ensures y == ReflectLow(x, wordLength) <==> x[wordLength..] == Zeros(8 - wordLength)
  {
    var whole := ReflectByte(x);
    y := Shr(whole, 8 - wordLength);
    assert y == SubByteReflected(x, wordLength);
    SubByteReflectsIffNothingAbove(x, wordLength);
  }
}
