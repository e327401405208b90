/** What the divisions promise to whoever checks a message: augmented and unaugmented division agree,
    a checksum appended to its message leaves zero, and short bursts of errors are always seen. */
module ErrorDetection {
  import opened Words
  import opened ModuloDivision

  /** Moving the n augmenting zeros from the end of the message to its front. */
  lemma {:induction false} AugmentedIsUnaugmented(n: nat, r: Word, m: Word, p: Word)
    requires 0 < n == |r| == |p|
    ensures AugFeed(n, r, m + Zeros(n), p) == Feed(n, AugFeed(n, r, Zeros(n), p), m, p)
  {
    FeedConcat(n, r, m, Zeros(n), p);
    if m == [] {
      assert m + Zeros(n) == Zeros(n);
    } else {
      var front, last := m[..|m| - 1], m[|m| - 1];
      AugmentedIsUnaugmented(n, r, front, p);
      FeedConcat(n, r, front, Zeros(n), p);
      BitThenZeros(n, AugFeed(n, r, front, p), last, p);
    }
  }

  /** A lone lowest bit climbs n - 1 places and is then divided out. */
  lemma LowBitClimbs(n: nat, bit: bool, p: Word)
    requires 0 < n == |p|
    ensures AugFeed(n, BitAt(n, 0, bit), Zeros(n), p) == Step(n, BitAt(n, n - 1, bit), false, p)
  {
    var low, top := BitAt(n, 0, bit), BitAt(n, n - 1, bit);
    ShiftToTop(n, bit);
    FeedShifts(n, low, n - 1, p);
    NextZero(n, low, n, p);
    ZeroStepSame(n, top, p);
  }

  lemma ShiftToTop(n: nat, bit: bool)
    requires n > 0
    ensures Shl(BitAt(n, 0, bit), n - 1) == BitAt(n, n - 1, bit)
    ensures forall i :: 1 <= i < n ==> !BitAt(n, 0, bit)[i]
  {
  }

  lemma ZeroStepSame(n: nat, s: Word, p: Word)
    requires 0 < n == |s| == |p|
    ensures AugStep(n, s, false, p) == Step(n, s, false, p)
  {
  }

  /** An input bit that is pushed up by n zeros arrives where unaugmented division would read it. */
  lemma BitThenZeros(n: nat, s: Word, bit: bool, p: Word)
    requires 0 < n == |s| == |p|
    ensures AugFeed(n, AugStep(n, s, bit, p), Zeros(n), p)
         == Step(n, AugFeed(n, s, Zeros(n), p), bit, p)
  {
    var low, a := BitAt(n, 0, bit), AugFeed(n, s, Zeros(n), p);
    var cleared := AugStep(n, s, false, p);
    assert AugStep(n, s, bit, p) == Xor(cleared, low);
    assert Xor(Zeros(n), Zeros(n)) == Zeros(n);
    FeedLinear(n, cleared, Zeros(n), low, Zeros(n), p);
    ZeroStepCommutes(n, s, n, p);
    ZeroStepSame(n, a, p);
    LowBitClimbs(n, bit, p);
    StepLinear(n, a, false, BitAt(n, n - 1, bit), false, p);
    StepAbsorbs(n, a, bit, p);
  }

  lemma {:induction false} ZeroStepCommutes(n: nat, s: Word, k: nat, p: Word)
    requires 0 < n == |s| == |p|
    ensures AugFeed(n, AugStep(n, s, false, p), Zeros(k), p)
         == AugStep(n, AugFeed(n, s, Zeros(k), p), false, p)
  {
    if k != 0 {
      assert Zeros(k)[..k - 1] == Zeros(k - 1);
      ZeroStepCommutes(n, s, k - 1, p);
    }
  }

  /** The register that one zero-input step takes to y, when the divisor has a constant term. */
  function Back(y: Word, p: Word): (x: Word)
    requires 0 < |y| == |p|
    ensures |x| == |y|
  {
    seq(|y|, i requires 0 <= i < |y| => if i == |y| - 1 then y[0] else y[i + 1] != (y[0] && p[i + 1]))
  }

  lemma BackUndoesStep(n: nat, y: Word, p: Word)
    requires 0 < n == |y| == |p| && p[0]
    ensures Step(n, Back(y, p), false, p) == y
  {
  }

  /** The conversion routine that the header says it does not provide: k zero-input steps undone. */
  function Converted(u: Word, k: nat, p: Word): (r: Word)
    requires 0 < |u| == |p|
    ensures |r| == |u|
    decreases k
  {
    if k == 0 then u else Converted(Back(u, p), k - 1, p)
  }

  lemma {:induction false} ZerosReachConverted(n: nat, u: Word, k: nat, p: Word)
    requires 0 < n == |u| == |p| && p[0]
    ensures Feed(n, Converted(u, k, p), Zeros(k), p) == u
    decreases k
  {
    if k != 0 {
      ZerosReachConverted(n, Back(u, p), k - 1, p);
      NextZero(n, Converted(u, k, p), k, p);
      BackUndoesStep(n, u, p);
    }
  }

  /** With a constant term in the divisor, every unaugmented start value has an augmented form: the
      augmented run from it, over the message and n zeros, is the unaugmented run. */
  lemma ConvertedStartAgrees(n: nat, u: Word, m: Word, p: Word)
    requires 0 < n == |u| == |p| && p[0]
    ensures AugFeed(n, Converted(u, n, p), m + Zeros(n), p) == Feed(n, u, m, p)
  {
    AugmentedIsUnaugmented(n, Converted(u, n, p), m, p);
    ZerosReachConverted(n, u, n, p);
    ZeroInputSame(n, Converted(u, n, p), n, p);
  }

  /** Feeding n bits adds them to what n zeros would have left. */
  lemma AugFeedAdds(n: nat, s: Word, word: Word, p: Word)
    requires 0 < n == |s| == |p| == |word|
    ensures AugFeed(n, s, Reverse(word), p) == Xor(AugFeed(n, s, Zeros(n), p), word)
  {
    assert Xor(s, Zeros(n)) == s && Xor(Zeros(n), Reverse(word)) == Reverse(word);
    FeedLinear(n, s, Zeros(n), Zeros(n), Reverse(word), p);
    AugFeedStores(n, Reverse(word), p);
    ReverseTwice(word);
    assert word + Zeros(0) == word;
  }

  /** A message with n bits appended, read highest coefficient first, leaves zero exactly when the
      appended bits are the checksum: the register that n zeros in their place would have left. */
  lemma ResidueIsZeroIffChecksum(n: nat, r: Word, m: Word, appended: Word, p: Word)
    requires 0 < n == |r| == |p| == |appended|
    ensures AugFeed(n, r, m + Reverse(appended), p) == Zeros(n)
       <==> appended == AugFeed(n, r, m + Zeros(n), p)
  {
    FeedConcat(n, r, m, Reverse(appended), p);
    FeedConcat(n, r, m, Zeros(n), p);
    AugFeedAdds(n, AugFeed(n, r, m, p), appended, p);
    XorCancel(AugFeed(n, r, m + Zeros(n), p), appended);
  }

  // ----- Bursts

  lemma {:induction false} EqualInputKeepsDifference(n: nat, r: Word, s: Word, m: Word, p: Word)
    requires 0 < n == |r| == |s| == |p| && p[0]
    requires Feed(n, r, m, p) == Feed(n, s, m, p)
    ensures r == s
  {
    if m != [] {
      var front := m[..|m| - 1];
      var a, b := Feed(n, r, front, p), Feed(n, s, front, p);
      var c := m[|m| - 1];
      assert StepBit(n, a, c, p, 0) == Step(n, a, c, p)[0] == Step(n, b, c, p)[0] == StepBit(n, b, c, p, 0);
      assert a[n - 1] == b[n - 1];
      forall i | 0 <= i < n - 1 ensures a[i] == b[i] {
        assert StepBit(n, a, c, p, i + 1) == Step(n, a, c, p)[i + 1] == Step(n, b, c, p)[i + 1]
            == StepBit(n, b, c, p, i + 1);
      }
      assert a == b;
      EqualInputKeepsDifference(n, r, s, front, p);
    }
  }

  /** Two messages of equal length that differ only inside a window of at most n bits. */
  ghost predicate DifferInWindow(n: nat, m: Word, m': Word) {
    exists a, w, w', c ::
      m == a + w + c && m' == a + w' + c && |w| == |w'| <= n && w != w'
  }

  /** Position by position: equal lengths, not equal, and every difference within n places of some start. */
  lemma WindowsByPosition(n: nat, m: Word, m': Word)
    ensures DifferInWindow(n, m, m') <==>
            |m| == |m'| && m != m' && exists start: nat :: EqualOutside(m, m', start, n)
  {
    if DifferInWindow(n, m, m') {
      var a, w, w', c :| m == a + w + c && m' == a + w' + c && |w| == |w'| <= n && w != w';
      assert EqualOutside(m, m', |a|, n);
      assert m[|a|..|a| + |w|] == w && m'[|a|..|a| + |w|] == w';
    }
    if |m| == |m'| && m != m' && exists start: nat :: EqualOutside(m, m', start, n) {
      var start: nat :| EqualOutside(m, m', start, n);
      SplitWindow(n, m, m', start);
    }
  }

  predicate EqualOutside(m: Word, m': Word, start: nat, n: nat) {
    forall i: nat :: i < |m| && i < |m'| && !(start <= i < start + n) ==> m[i] == m'[i]
  }

  lemma SplitWindow(n: nat, m: Word, m': Word, start: nat)
    requires |m| == |m'| && m != m' && EqualOutside(m, m', start, n)
    ensures DifferInWindow(n, m, m')
  {
    var lo := if start <= |m| then start else |m|;
    var hi := if start + n <= |m| then start + n else |m|;
    assert m[..lo] == m'[..lo] && m[hi..] == m'[hi..];
    assert m == m[..lo] + m[lo..hi] + m[hi..] && m' == m'[..lo] + m'[lo..hi] + m'[hi..];
    SameWindow(n, m[..lo], m[lo..hi], m'[lo..hi], m[hi..]);
  }

  lemma WindowExtends(n: nat, m: Word, m': Word, rest: Word)
    requires DifferInWindow(n, m, m')
    ensures DifferInWindow(n, m + rest, m' + rest) && |m| == |m'|
  {
    var a, w, w', c :| m == a + w + c && m' == a + w' + c && |w| == |w'| <= n && w != w';
    Regrouped(a + w, c, rest);
    Regrouped(a + w', c, rest);
    SameWindow(n, a, w, w', c + rest);
  }

  lemma SameWindow(n: nat, a: Word, w: Word, w': Word, c: Word)
    requires |w| == |w'| <= n && w != w'
    ensures DifferInWindow(n, a + w + c, a + w' + c)
  {
  }

  lemma Regrouped(a: Word, b: Word, c: Word)
    ensures a + b + c == a + (b + c)
  {
  }

  lemma WindowsSeparate(n: nat, r: Word, w: Word, w': Word, p: Word)
    requires 0 < n == |r| == |p| && p[0]
    requires |w| == |w'| <= n && w != w'
    ensures Feed(n, r, w, p) != Feed(n, r, w', p)
  {
    FeedAbsorbs(n, r, w, p);
    FeedAbsorbs(n, r, w', p);
    PlacedSeparates(n, r, w, w');
    if Feed(n, r, w, p) == Feed(n, r, w', p) {
      EqualInputKeepsDifference(n, Xor(r, Placed(n, n, w)), Xor(r, Placed(n, n, w')), Zeros(|w|), p);
    }
  }

  lemma PlacedSeparates(n: nat, r: Word, w: Word, w': Word)
    requires |w| == |w'| <= n == |r| && w != w'
    ensures Xor(r, Placed(n, n, w)) != Xor(r, Placed(n, n, w'))
  {
    var x, y := Xor(r, Placed(n, n, w)), Xor(r, Placed(n, n, w'));
    var j :| 0 <= j < |w| && w[j] != w'[j];
    assert x[n - 1 - j] == (r[n - 1 - j] != w[j]) && y[n - 1 - j] == (r[n - 1 - j] != w'[j]);
  }

  lemma BurstIsSeen(n: nat, r: Word, m: Word, m': Word, p: Word)
    requires 0 < n == |r| == |p| && p[0]
    requires DifferInWindow(n, m, m')
    ensures Feed(n, r, m, p) != Feed(n, r, m', p)
  {
    var a, w, w', c :| m == a + w + c && m' == a + w' + c && |w| == |w'| <= n && w != w';
    FeedConcat(n, r, a + w, c, p);
    FeedConcat(n, r, a + w', c, p);
    FeedConcat(n, r, a, w, p);
    FeedConcat(n, r, a, w', p);
    var s := Feed(n, r, a, p);
    WindowsSeparate(n, s, w, w', p);
    if Feed(n, r, m, p) == Feed(n, r, m', p) {
      EqualInputKeepsDifference(n, Feed(n, s, w, p), Feed(n, s, w', p), c, p);
    }
  }

  /** The register that one zero-input step turns into zero when the divisor has no constant term. */
  function Hidden(p: Word): Word
    requires |p| > 0
  {
    Shr(p, 1)[|p| - 1 := true]
  }

  lemma HiddenIsErased(n: nat, p: Word)
    requires 0 < n == |p| && !p[0]
    ensures Feed(n, Hidden(p), Zeros(n), p) == Feed(n, Zeros(n), Zeros(n), p)
  {
    assert Step(n, Hidden(p), false, p) == Zeros(n);
    assert Step(n, Zeros(n), false, p) == Zeros(n);
    assert Zeros(n) == [false] + Zeros(n - 1);
    FeedConcat(n, Hidden(p), [false], Zeros(n - 1), p);
    FeedConcat(n, Zeros(n), [false], Zeros(n - 1), p);
    assert Feed(n, Hidden(p), [false], p) == Zeros(n) == Feed(n, Zeros(n), [false], p);
  }

  /** Without the constant term, there is an n-bit burst that no start value sees. */
  lemma BurstIsMissed(n: nat, r: Word, p: Word) returns (m: Word, m': Word)
    requires 0 < n == |r| == |p| && !p[0]
    ensures DifferInWindow(n, m, m') && Feed(n, r, m, p) == Feed(n, r, m', p)
  {
    m, m' := Reverse(Hidden(p)), Zeros(n);
    assert m[0] && !m'[0];
    WholeWindow(n, m, m');
    FeedAbsorbs(n, r, m, p);
    FeedAbsorbs(n, r, m', p);
    PlacedWhole(Hidden(p));
    PlacedWhole(Zeros(n));
    XorZeros(Zeros(n));
    FeedLinear(n, r, Zeros(n), Hidden(p), Zeros(n), p);
    FeedLinear(n, r, Zeros(n), Zeros(n), Zeros(n), p);
    HiddenIsErased(n, p);
  }

  lemma WholeWindow(n: nat, m: Word, m': Word)
    requires |m| == |m'| <= n && m != m'
    ensures DifferInWindow(n, m, m')
  {
    SameWindow(n, [], m, m', []);
    assert m == [] + m + [] && m' == [] + m' + [];
  }

  lemma PlacedWhole(word: Word)
    ensures Placed(|word|, |word|, Reverse(word)) == word && Reverse(Zeros(|word|)) == Zeros(|word|)
  {
  }

  /** Every burst of at most n bits is detected from every start value if and only if the divisor has
      a constant term. */
  lemma BurstDetectionIffConstantTerm(n: nat, p: Word)
    requires 0 < n == |p|
    ensures p[0] <==> forall r: Word, m: Word, m': Word ::
              |r| == n && DifferInWindow(n, m, m') ==> Feed(n, r, m, p) != Feed(n, r, m', p)
  {
    if p[0] {
      forall r: Word, m: Word, m': Word | |r| == n && DifferInWindow(n, m, m')
        ensures Feed(n, r, m, p) != Feed(n, r, m', p)
      {
        BurstIsSeen(n, r, m, m', p);
      }
    } else {
      var m, m' := BurstIsMissed(n, Zeros(n), p);
    }
  }
}
