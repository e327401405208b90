/** The bit-at-a-time modulo-2 divisions that every other computation must agree with. */
module ModuloDivision {
  import opened Reflection
  import opened Words

  /** Bit i after one unaugmented division step of order n. The quotient bit is the register's bit
      n - 1 compared with the input bit; it is also what the shift leaves at bit n, when there is one,
      because nothing masks the register. */
  predicate StepBit(n: nat, r: Word, bit: bool, p: Word, i: nat)
    requires 0 < n <= |r| == |p| && i < |r|
  {
    var quotient := r[n - 1] != bit;
    var shifted := if i == 0 then false else if i == n then quotient else r[i - 1];
    shifted != (quotient && p[i])
  }

  /** One unaugmented division step on a register at least as wide as the order n. */
  function Step(n: nat, r: Word, bit: bool, p: Word): (s: Word)
    requires 0 < n <= |r| == |p|
    ensures |s| == |r|
  {
    seq(|r|, i requires 0 <= i < |r| => StepBit(n, r, bit, p, i))
  }

  /** Bit i after one augmented division step: the input bit enters at the bottom. */
  predicate AugStepBit(n: nat, r: Word, bit: bool, p: Word, i: nat)
    requires 0 < n <= |r| == |p| && i < |r|
  {
    (if i == 0 then bit else r[i - 1]) != (r[n - 1] && p[i])
  }

  /** One augmented division step on a register at least as wide as the order n. */
  function AugStep(n: nat, r: Word, bit: bool, p: Word): (s: Word)
    requires 0 < n <= |r| == |p|
    ensures |s| == |r|
  {
    seq(|r|, i requires 0 <= i < |r| => AugStepBit(n, r, bit, p, i))
  }

  /** Unaugmented division by bits listed in processing order. */
  function Feed(n: nat, r: Word, bits: Word, p: Word): (s: Word)
    requires 0 < n <= |r| == |p|
    ensures |s| == |r|
  {
    if bits == [] then r
    else Step(n, Feed(n, r, bits[..|bits| - 1], p), bits[|bits| - 1], p)
  }

  /** Augmented division by bits listed in processing order. */
  function AugFeed(n: nat, r: Word, bits: Word, p: Word): (s: Word)
    requires 0 < n <= |r| == |p|
    ensures |s| == |r|
  {
    if bits == [] then r
    else AugStep(n, AugFeed(n, r, bits[..|bits| - 1], p), bits[|bits| - 1], p)
  }

  // ----- Only the low n bits matter

  lemma StepLow(n: nat, r: Word, bit: bool, p: Word)
    requires 0 < n <= |r| == |p|
    ensures Step(n, r, bit, p)[..n] == Step(n, r[..n], bit, p[..n])
    ensures AugStep(n, r, bit, p)[..n] == AugStep(n, r[..n], bit, p[..n])
  {
  }

  lemma {:induction false} FeedLow(n: nat, r: Word, bits: Word, p: Word)
    requires 0 < n <= |r| == |p|
    ensures Feed(n, r, bits, p)[..n] == Feed(n, r[..n], bits, p[..n])
    ensures AugFeed(n, r, bits, p)[..n] == AugFeed(n, r[..n], bits, p[..n])
  {
    if bits != [] {
      var front, last := bits[..|bits| - 1], bits[|bits| - 1];
      FeedLow(n, r, front, p);
      StepLow(n, Feed(n, r, front, p), last, p);
      StepLow(n, AugFeed(n, r, front, p), last, p);
    }
  }

  // ----- Runs compose

  lemma {:induction false} FeedConcat(n: nat, r: Word, a: Word, b: Word, p: Word)
    requires 0 < n <= |r| == |p|
    ensures Feed(n, r, a + b, p) == Feed(n, Feed(n, r, a, p), b, p)
    ensures AugFeed(n, r, a + b, p) == AugFeed(n, AugFeed(n, r, a, p), b, p)
  {
    if b == [] {
      assert a + b == a;
    } else {
      assert (a + b)[..|a + b| - 1] == a + b[..|b| - 1];
      FeedConcat(n, r, a, b[..|b| - 1], p);
    }
  }

  // ----- Linearity over GF(2)

  lemma StepLinear(n: nat, r: Word, b: bool, s: Word, c: bool, p: Word)
    requires 0 < n <= |r| == |s| == |p|
    ensures Step(n, Xor(r, s), b != c, p) == Xor(Step(n, r, b, p), Step(n, s, c, p))
    ensures AugStep(n, Xor(r, s), b != c, p) == Xor(AugStep(n, r, b, p), AugStep(n, s, c, p))
  {
  }

  lemma {:induction false} FeedLinear(n: nat, r: Word, a: Word, s: Word, b: Word, p: Word)
    requires 0 < n <= |r| == |s| == |p| && |a| == |b|
    ensures Feed(n, Xor(r, s), Xor(a, b), p) == Xor(Feed(n, r, a, p), Feed(n, s, b, p))
    ensures AugFeed(n, Xor(r, s), Xor(a, b), p) == Xor(AugFeed(n, r, a, p), AugFeed(n, s, b, p))
  {
    if a != [] {
      var k := |a| - 1;
      assert Xor(a, b)[..k] == Xor(a[..k], b[..k]);
      FeedLinear(n, r, a[..k], s, b[..k], p);
      StepLinear(n, Feed(n, r, a[..k], p), a[k], Feed(n, s, b[..k], p), b[k], p);
      StepLinear(n, AugFeed(n, r, a[..k], p), a[k], AugFeed(n, s, b[..k], p), b[k], p);
    }
  }

  // ----- A window of input is an exclusive-or into the register

  /** The register of the given width that holds a window of input bits just below the order n, first
      bit at the top. */
  function Placed(n: nat, width: nat, bits: Word): (r: Word)
    requires |bits| <= n <= width
    ensures |r| == width
  {
    Zeros(n - |bits|) + Reverse(bits) + Zeros(width - n)
  }

  /** While no set bit passes position n - 1, a zero-input run is a plain shift. */
  lemma {:induction false} FeedShifts(n: nat, r: Word, k: nat, p: Word)
    requires 0 < n <= |r| == |p| && k <= n
    requires forall i :: n - k <= i < n ==> !r[i]
    ensures Feed(n, r, Zeros(k), p) == Shl(r, k) == AugFeed(n, r, Zeros(k), p)
  {
    if k == 0 {
      assert Shl(r, 0) == r;
    } else {
      FeedShifts(n, r, k - 1, p);
      NextZero(n, r, k, p);
      StepShifts(n, r, k, p);
    }
  }

  lemma StepShifts(n: nat, r: Word, k: nat, p: Word)
    requires 0 < n <= |r| == |p| && 0 < k <= n && !r[n - k]
    ensures Step(n, Shl(r, k - 1), false, p) == Shl(r, k) == AugStep(n, Shl(r, k - 1), false, p)
  {
  }

  /** A run of k zeros ends with one more zero. */
  lemma NextZero(n: nat, r: Word, k: nat, p: Word)
    requires 0 < n <= |r| == |p| && k > 0
    ensures Feed(n, r, Zeros(k), p) == Step(n, Feed(n, r, Zeros(k - 1), p), false, p)
    ensures AugFeed(n, r, Zeros(k), p) == AugStep(n, AugFeed(n, r, Zeros(k - 1), p), false, p)
  {
    assert Zeros(k)[..k - 1] == Zeros(k - 1);
  }

  /** An input bit is an exclusive-or into the register's top bit. */
  lemma StepAbsorbs(n: nat, r: Word, bit: bool, p: Word)
    requires 0 < n <= |r| == |p|
    ensures Step(n, r, bit, p)
         == Step(n, Xor(r, BitAt(|r|, n - 1, bit)), false, p)
  {
  }

  /** Feeding k <= n bits equals adding them to the register just below the order and feeding k zeros,
      whatever lies above the order. */
  lemma {:induction false} FeedAbsorbs(n: nat, r: Word, bits: Word, p: Word)
    requires 0 < n <= |r| == |p| && |bits| <= n
    ensures Feed(n, r, bits, p) == Feed(n, Xor(r, Placed(n, |r|, bits)), Zeros(|bits|), p)
  {
    var k := |bits|;
    if k == 0 {
      assert Xor(r, Placed(n, |r|, bits)) == r;
    } else {
      var front, last := bits[..k - 1], bits[k - 1];
      var before := Xor(r, Placed(n, |r|, front));
      FeedAbsorbs(n, r, front, p);
      LoneBitRises(n, before, last, k, p);
      StepAbsorbs(n, Feed(n, before, Zeros(k - 1), p), last, p);
      PlaceNextBit(n, r, bits);
      NextZero(n, Xor(r, Placed(n, |r|, bits)), k, p);
    }
  }

  lemma PlaceNextBit(n: nat, r: Word, bits: Word)
    requires 0 < |bits| <= n <= |r|
    ensures var k := |bits|;
            Xor(Xor(r, Placed(n, |r|, bits[..k - 1])), BitAt(|r|, n - k, bits[k - 1])) == Xor(r, Placed(n, |r|, bits))
  {
  }

  /** A bit added at position n - k is at position n - 1 after k - 1 zero-input steps. */
  lemma LoneBitRises(n: nat, r: Word, bit: bool, k: nat, p: Word)
    requires 0 < n <= |r| == |p| && 0 < k <= n
    ensures Feed(n, Xor(r, BitAt(|r|, n - k, bit)), Zeros(k - 1), p)
         == Xor(Feed(n, r, Zeros(k - 1), p), BitAt(|r|, n - 1, bit))
  {
    var low := BitAt(|r|, n - k, bit);
    assert Zeros(k - 1) == Xor(Zeros(k - 1), Zeros(k - 1));
    FeedLinear(n, r, Zeros(k - 1), low, Zeros(k - 1), p);
    FeedShifts(n, low, k - 1, p);
    assert Shl(low, k - 1) == BitAt(|r|, n - 1, bit);
  }

  /** The identity behind every byte-wise driver: the k <= n bits that leave the register meet the k
      incoming bits, and only their exclusive-or decides what is added to the shifted register. */
  lemma FeedByTable(n: nat, r: Word, bits: Word, p: Word)
    requires 0 < n == |r| == |p| && |bits| <= n
    ensures Feed(n, r, bits, p) ==
            Xor(Shl(r, |bits|), Feed(n, Zeros(n), Xor(Reverse(r[n - |bits|..]), bits), p))
  {
    var k := |bits|;
    var unit := Xor(Reverse(r[n - k..]), bits);
    var kept, placed := r[..n - k] + Zeros(k), Placed(n, n, unit);
    FeedAbsorbs(n, r, bits, p);
    FeedAbsorbs(n, Zeros(n), unit, p);
    XorZeros(placed);
    SplitAtWindow(n, r, bits);
    XorZeros(Zeros(k));
    FeedLinear(n, kept, Zeros(k), placed, Zeros(k), p);
    FeedShifts(n, kept, k, p);
  }

  /** The register with the input added is what stays below the window, and the window's content met by
      the input. */
  lemma SplitAtWindow(n: nat, r: Word, bits: Word)
    requires |bits| <= n == |r|
    ensures var k := |bits|;
            var kept := r[..n - k] + Zeros(k);
            && Xor(r, Placed(n, n, bits)) == Xor(kept, Placed(n, n, Xor(Reverse(r[n - k..]), bits)))
            && Shl(kept, k) == Shl(r, k)
            && forall i :: n - k <= i < n ==> !kept[i]
  {
  }

  /** Feeding k <= n bits into a zero register under augmented division just stores them. */
  lemma {:induction false} AugFeedStores(n: nat, bits: Word, p: Word)
    requires 0 < n == |p| && |bits| <= n
    ensures AugFeed(n, Zeros(n), bits, p) == Reverse(bits) + Zeros(n - |bits|)
  {
    if bits != [] {
      AugFeedStores(n, bits[..|bits| - 1], p);
    } else {
      assert Reverse(bits) + Zeros(n) == Zeros(n);
    }
  }

  /** With zero input the two divisions are the same. */
  lemma {:induction false} ZeroInputSame(n: nat, r: Word, k: nat, p: Word)
    requires 0 < n <= |r| == |p|
    ensures AugFeed(n, r, Zeros(k), p) == Feed(n, r, Zeros(k), p)
  {
    if k != 0 {
      assert Zeros(k)[..k - 1] == Zeros(k - 1);
      ZeroInputSame(n, r, k - 1, p);
      var s := Feed(n, r, Zeros(k - 1), p);
      assert Shl(s, 1)[0 := false] == Shl(s, 1);
    }
  }

  /** The byte-wise form of augmented division: the same unaugmented partial products, indexed by the
      k bits that leave the register. */
  lemma AugFeedByTable(n: nat, r: Word, bits: Word, p: Word)
    requires 0 < n == |r| == |p| && |bits| <= n
    ensures AugFeed(n, r, bits, p) ==
            Xor(Reverse(bits) + r[..n - |bits|], Feed(n, Zeros(n), Reverse(r[n - |bits|..]), p))
  {
    var k := |bits|;
    assert Xor(r, Zeros(n)) == r && Xor(Zeros(k), bits) == bits;
    FeedLinear(n, r, Zeros(k), Zeros(n), bits, p);
    AugFeedStores(n, bits, p);
    ZeroInputSame(n, r, k, p);
    FeedByTable(n, r, Zeros(k), p);
    assert Xor(Reverse(r[n - k..]), Zeros(k)) == Reverse(r[n - k..]);
    MergeStored(r, Reverse(bits), Feed(n, Zeros(n), Reverse(r[n - k..]), p));
  }

  lemma MergeStored(r: Word, low: Word, product: Word)
    requires |low| <= |r| == |product|
    ensures Xor(Xor(Shl(r, |low|), product), low + Zeros(|r| - |low|))
         == Xor(low + r[..|r| - |low|], product)
  {
  }

  lemma {:induction false} ZerosStay(w: nat, n: nat, k: nat, p: Word)
    requires 0 < n <= w == |p|
    ensures Feed(n, Zeros(w), Zeros(k), p) == Zeros(w)
  {
    if k != 0 {
      assert Zeros(k)[..k - 1] == Zeros(k - 1);
      ZerosStay(w, n, k - 1, p);
    }
  }

  // ----- The loops of the source

  /** The source's mask, shift and exclusive-or operations for one bit are one step. */
  lemma OperationsMakeStep(n: nat, r: Word, bit: bool, p: Word, mask: Word)
    requires 0 < n <= |r| == |p| && mask == OneHot(|r|, n - 1)
    ensures var compared := Xor(r, if bit then mask else Zeros(|r|));
            var quotient := And(compared, mask) != Zeros(|r|);
            Xor(Shl(compared, 1), if quotient then p else Zeros(|r|)) == Step(n, r, bit, p)
  {
    MaskTestsBit(Xor(r, if bit then mask else Zeros(|r|)), n - 1);
  }

  lemma OperationsMakeAugStep(n: nat, r: Word, bit: bool, p: Word, mask: Word)
    requires 0 < n <= |r| == |p| && mask == OneHot(|r|, n - 1)
    ensures var quotient := And(r, mask) != Zeros(|r|);
            Xor(Or(Shl(r, 1), BitAt(|r|, 0, bit)), if quotient then p else Zeros(|r|)) == AugStep(n, r, bit, p)
  {
    MaskTestsBit(r, n - 1);
  }

  lemma MaskTestsBit(x: Word, k: nat)
    requires k < |x|
    ensures And(x, OneHot(|x|, k)) != Zeros(|x|) <==> x[k]
  {
    if x[k] {
      assert And(x, OneHot(|x|, k))[k];
    } else {
      assert And(x, OneHot(|x|, k)) == Zeros(|x|);
    }
  }

  /** The word as the loops read it, lowest bit first. */
  function Aligned(word: Word, wordLength: nat, reflect: bool): (bits: Word)
    requires wordLength <= |word|
    ensures |bits| == |word|
  {
    if reflect then word else ReflectLow(word, wordLength)
  }

  /** After k shifts the lowest bit is the k-th input bit. */
  lemma NextInputBit(word: Word, wordLength: nat, reflect: bool, k: nat)
    requires k < wordLength <= |word|
    ensures Shr(Aligned(word, wordLength, reflect), k)[0] == InOrder(word[..wordLength], reflect)[k]
  {
    var aligned, low := Aligned(word, wordLength, reflect), word[..wordLength];
    assert Shr(aligned, k)[0] == aligned[k];
    assert aligned[k] == if reflect then word[k] else Reverse(low)[k];
  }

  lemma ShrOnce(x: Word, k: nat)
    requires k < |x|
    ensures Shr(Shr(x, k), 1) == Shr(x, k + 1)
  {
    forall i | 0 <= i < |x| ensures Shr(Shr(x, k), 1)[i] == Shr(x, k + 1)[i] {
      assert i + 1 < |x| ==> Shr(Shr(x, k), 1)[i] == Shr(x, k)[i + 1];
    }
  }

  lemma NextInputStep(n: nat, r: Word, input: Word, k: nat, p: Word)
    requires 0 < n <= |r| == |p| && k < |input|
    ensures Feed(n, r, input[..k + 1], p) == Step(n, Feed(n, r, input[..k], p), input[k], p)
    ensures AugFeed(n, r, input[..k + 1], p) == AugStep(n, AugFeed(n, r, input[..k], p), input[k], p)
  {
    assert input[..k + 1][..k] == input[..k];
  }

  /** The input of a division loop and the word it reads, before the first round and after the last. */
  lemma RoundsBegin(n: nat, r: Word, word: Word, wordLength: nat, reflect: bool, p: Word)
    requires 0 < n <= |r| == |p| && wordLength <= |word|
    ensures var input := InOrder(word[..wordLength], reflect);
            && |input| == wordLength && input[..wordLength] == input && input[..0] == []
            && Feed(n, r, input[..0], p) == r == AugFeed(n, r, input[..0], p)
    ensures Aligned(word, wordLength, reflect) == Shr(Aligned(word, wordLength, reflect), 0)
  {
  }

  /** One round of a division loop: the lowest bit is the next input bit. */
  lemma NextRound(n: nat, r: Word, word: Word, wordLength: nat, reflect: bool, k: nat, bits: Word, p: Word)
    requires 0 < n <= |r| == |p| && k < wordLength <= |word|
    requires bits == Shr(Aligned(word, wordLength, reflect), k)
    ensures var input := InOrder(word[..wordLength], reflect);
            && Feed(n, r, input[..k + 1], p) == Step(n, Feed(n, r, input[..k], p), bits[0], p)
            && AugFeed(n, r, input[..k + 1], p) == AugStep(n, AugFeed(n, r, input[..k], p), bits[0], p)
    ensures Shr(bits, 1) == Shr(Aligned(word, wordLength, reflect), k + 1)
  {
    NextInputBit(word, wordLength, reflect, k);
    ShrOnce(Aligned(word, wordLength, reflect), k);
    NextInputStep(n, r, InOrder(word[..wordLength], reflect), k, p);
  }

  method CrcModuloWordUpdate(registerLength: nat, oldRemainder: Word, newDividendBits: Word,
                             truncatedDivisor: Word, wordLength: nat, reflect: bool)
    returns (remainder: Word)
    requires 0 < registerLength <= |oldRemainder| == |truncatedDivisor|
    requires 0 < wordLength <= |newDividendBits|
    ensures remainder == Feed(registerLength, oldRemainder,
                              InOrder(newDividendBits[..wordLength], reflect), truncatedDivisor)
  {
    var width := |oldRemainder|;
    var highBitMask := OneHot(width, registerLength - 1);
    var bits := ReflectOptionally(newDividendBits, !reflect, wordLength);
    ghost var aligned := bits;
    ghost var input := InOrder(newDividendBits[..wordLength], reflect);
    RoundsBegin(registerLength, oldRemainder, newDividendBits, wordLength, reflect, truncatedDivisor);
    remainder := oldRemainder;
    var i := wordLength;
    while i != 0
      invariant 0 <= i <= wordLength
      invariant bits == Shr(aligned, wordLength - i)
      invariant remainder == Feed(registerLength, oldRemainder, input[..wordLength - i], truncatedDivisor)
    {
      NextRound(registerLength, oldRemainder, newDividendBits, wordLength, reflect, wordLength - i, bits,
                truncatedDivisor);
      OperationsMakeStep(registerLength, remainder, bits[0], truncatedDivisor, highBitMask);
      remainder := Xor(remainder, if bits[0] then highBitMask else Zeros(width));
      var quotient := And(remainder, highBitMask) != Zeros(width);
      remainder := Shl(remainder, 1);
      remainder := Xor(remainder, if quotient then truncatedDivisor else Zeros(width));
      i := i - 1;
      bits := Shr(bits, 1);
    }
  }

  method AugmentedCrcModuloWordUpdate(registerLength: nat, oldRemainder: Word, newDividendBits: Word,
                                      truncatedDivisor: Word, wordLength: nat, reflect: bool)
    returns (remainder: Word)
    requires 0 < registerLength <= |oldRemainder| == |truncatedDivisor|
    requires 0 < wordLength <= |newDividendBits|
    ensures remainder == AugFeed(registerLength, oldRemainder,
                                 InOrder(newDividendBits[..wordLength], reflect), truncatedDivisor)
  {
    var width := |oldRemainder|;
    var highBitMask := OneHot(width, registerLength - 1);
    var bits := ReflectOptionally(newDividendBits, !reflect, wordLength);
    ghost var aligned := bits;
    ghost var input := InOrder(newDividendBits[..wordLength], reflect);
    RoundsBegin(registerLength, oldRemainder, newDividendBits, wordLength, reflect, truncatedDivisor);
    remainder := oldRemainder;
    var i := wordLength;
    while i != 0
      invariant 0 <= i <= wordLength
      invariant bits == Shr(aligned, wordLength - i)
      invariant remainder == AugFeed(registerLength, oldRemainder, input[..wordLength - i], truncatedDivisor)
    {
      NextRound(registerLength, oldRemainder, newDividendBits, wordLength, reflect, wordLength - i, bits,
                truncatedDivisor);
      OperationsMakeAugStep(registerLength, remainder, bits[0], truncatedDivisor, highBitMask);
      var quotient := And(remainder, highBitMask) != Zeros(width);
      remainder := Shl(remainder, 1);
      remainder := Or(remainder, BitAt(width, 0, bits[0]));
      remainder := Xor(remainder, if quotient then truncatedDivisor else Zeros(width));
      i := i - 1;
      bits := Shr(bits, 1);
    }
  }

  /** The single-bit update: a one-bit word held in an `unsigned`. */
  method CrcModuloUpdate(registerLength: nat, oldRemainder: Word, newDividendBit: bool,
                         truncatedDivisor: Word)
    returns (remainder: Word)
    requires 0 < registerLength <= |oldRemainder| == |truncatedDivisor|
    ensures remainder == Step(registerLength, oldRemainder, newDividendBit, truncatedDivisor)
  {
    var word := BitAt(32, 0, newDividendBit);
    remainder := CrcModuloWordUpdate(registerLength, oldRemainder, word, truncatedDivisor, 1, false);
    assert InOrder(word[..1], false) == [newDividendBit];
    assert Feed(registerLength, oldRemainder, [], truncatedDivisor) == oldRemainder;
  }
}
