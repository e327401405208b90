/** Polynomials over GF(2) and the meaning of the register: what the division routines leave behind is
    the remainder of a Euclidean division, and there is only one. */
module Polynomials {
  import opened Words
  import opened ModuloDivision

  function Scale(c: bool, a: Word): Word {
    if c then a else Zeros(|a|)
  }

  /** The product (q0 + x q') P = q0 P + x (q' P), with exactly |q| + |P| - 1 coefficients. */
  function Product(q: Word, P: Word): (r: Word)
    requires |P| > 0
    ensures |r| == |q| + |P| - 1
  {
    if q == [] then Zeros(|P| - 1)
    else Xor(Scale(q[0], P) + Zeros(|q| - 1), [false] + Product(q[1..], P))
  }

  /** The full divisor: the truncated one with its implicit leading term. */
  function Divisor(p: Word): Word {
    p + [true]
  }

  /** r x^|m| + m x^|r|, where the first message bit is the highest coefficient of m. */
  function Dividend(r: Word, m: Word): Word {
    Xor(Zeros(|m|) + r, Zeros(|r|) + Reverse(m))
  }

  /** The quotient bits that the division routine computes and drops, lowest coefficient first. */
  function Quotient(r: Word, m: Word, p: Word): (q: Word)
    requires 0 < |r| == |p|
    ensures |q| == |m|
  {
    if m == [] then []
    else
      var front := m[..|m| - 1];
      [Feed(|r|, r, front, p)[|r| - 1] != m[|m| - 1]] + Quotient(r, front, p)
  }

  /** q P + s, with s below the leading term of P. */
  function Recombined(q: Word, s: Word, p: Word): Word
    requires |s| == |p|
  {
    Xor(Product(q, Divisor(p)), s + Zeros(|q|))
  }

  lemma {:induction false} ProductOfXor(a: Word, b: Word, P: Word)
    requires |a| == |b| && |P| > 0
    ensures Product(Xor(a, b), P) == Xor(Product(a, P), Product(b, P))
  {
    if a != [] {
      assert Xor(a, b)[1..] == Xor(a[1..], b[1..]);
      ProductOfXor(a[1..], b[1..], P);
    }
  }

  /** A non-zero multiple of a polynomial of degree n has a term of degree n or more. */
  lemma {:induction false} MonicProductIsLarge(q: Word, p: Word, k: nat) returns (top: nat)
    requires k < |q| && q[k]
    ensures |p| <= top < |Product(q, Divisor(p))| && Product(q, Divisor(p))[top]
  {
    if j :| 1 <= j < |q| && q[j] {
      var t := MonicProductIsLarge(q[1..], p, j - 1);
      top := t + 1;
      HigherTerm(q[0], Divisor(p), Product(q[1..], Divisor(p)), |q| - 1, t);
    } else {
      top := |p|;
      LeadingTerm(q, p);
    }
  }

  /** A term beyond the divisor's own degree comes from the rest of the product. */
  lemma HigherTerm(c: bool, P: Word, rest: Word, k: nat, t: nat)
    requires |P| <= t + 1 && t < |rest| == |P| + k - 1
    ensures Xor(Scale(c, P) + Zeros(k), [false] + rest)[t + 1] == rest[t]
  {
    assert !(Scale(c, P) + Zeros(k))[t + 1];
  }

  lemma LeadingTerm(q: Word, p: Word)
    requires q != [] && q[0] && forall j :: 1 <= j < |q| ==> !q[j]
    ensures |p| < |Product(q, Divisor(p))| && Product(q, Divisor(p))[|p|]
  {
    ProductOfZeros(q[1..], Divisor(p));
    DivisorLeads(p, |q| - 1);
  }

  lemma DivisorLeads(p: Word, k: nat)
    ensures Xor(Divisor(p) + Zeros(k), [false] + Zeros(k + |p|))[|p|]
  {
  }

  lemma {:induction false} ProductOfZeros(q: Word, P: Word)
    requires |P| > 0 && forall j :: 0 <= j < |q| ==> !q[j]
    ensures Product(q, P) == Zeros(|q| + |P| - 1)
  {
    if q != [] {
      ProductOfZeros(q[1..], P);
    }
  }

  /** One more message bit multiplies the dividend by x and adds the bit at x^n. */
  lemma DividendGrows(r: Word, m: Word, bit: bool)
    ensures Dividend(r, m + [bit]) ==
            Xor([false] + Dividend(r, m), BitAt(|r| + |m| + 1, |r|, bit))
  {
  }

  /** The division routine computes a true Euclidean remainder: after the bits m from state r,
      r x^|m| + m x^n = Quotient P + Feed, and Feed has degree below n. */
  lemma {:induction false} FeedIsRemainder(r: Word, m: Word, p: Word)
    requires 0 < |r| == |p|
    ensures Dividend(r, m) == Recombined(Quotient(r, m, p), Feed(|r|, r, m, p), p)
  {
    if m == [] {
      assert Dividend(r, m) == r == Recombined([], r, p);
    } else {
      var k := |m| - 1;
      var q, s := Quotient(r, m[..k], p), Feed(|r|, r, m[..k], p);
      FeedIsRemainder(r, m[..k], p);
      DividendGrows(r, m[..k], m[k]);
      assert m[..k] + [m[k]] == m;
      StepKeepsIdentity(q, s, m[k], p);
      assert Quotient(r, m, p) == [s[|r| - 1] != m[k]] + q;
    }
  }

  lemma StepKeepsIdentity(q: Word, s: Word, bit: bool, p: Word)
    requires 0 < |s| == |p|
    ensures Recombined([s[|s| - 1] != bit] + q, Step(|s|, s, bit, p), p) ==
            Xor([false] + Recombined(q, s, p), BitAt(|s| + |q| + 1, |s|, bit))
  {
    assert ([s[|s| - 1] != bit] + q)[1..] == q;
    StepAddsDivisor(Product(q, Divisor(p)), |q|, s, bit, p);
  }

  /** One step subtracts the divisor from the shifted register and the new message bit exactly when the
      quotient bit is set. */
  lemma StepAddsDivisor(product: Word, k: nat, s: Word, bit: bool, p: Word)
    requires 0 < |s| == |p| && |product| == |s| + k
    ensures var c := s[|s| - 1] != bit;
            Xor(Xor(Scale(c, Divisor(p)) + Zeros(k), [false] + product), Step(|s|, s, bit, p) + Zeros(k + 1)) ==
            Xor([false] + Xor(product, s + Zeros(k)), BitAt(|s| + k + 1, |s|, bit))
  {
  }

  lemma QuotientsSeparate(q: Word, s: Word, q': Word, s': Word, p: Word, k: nat)
    requires |q| == |q'| && |s| == |s'| == |p| && k < |q| && q[k] != q'[k]
    ensures Recombined(q, s, p) != Recombined(q', s', p)
  {
    var P := Divisor(p);
    ProductOfXor(q, q', P);
    var top := MonicProductIsLarge(Xor(q, q'), p, k);
    assert Recombined(q, s, p)[top] == Product(q, P)[top];
    assert Recombined(q', s', p)[top] == Product(q', P)[top];
  }

  /** Quotient and remainder are unique, so "the" remainder is well defined. */
  lemma RemainderIsUnique(q: Word, s: Word, q': Word, s': Word, p: Word)
    requires |q| == |q'| && |s| == |s'| == |p|
    requires Recombined(q, s, p) == Recombined(q', s', p)
    ensures q == q' && s == s'
  {
    if k :| 0 <= k < |q| && q[k] != q'[k] {
      QuotientsSeparate(q, s, q', s', p, k);
    }
    assert q == q';
    var P := Divisor(p);
    forall i | 0 <= i < |s| ensures s[i] == s'[i] {
      assert Recombined(q, s, p)[i] == (Product(q, P)[i] != s[i]);
      assert Recombined(q', s', p)[i] == (Product(q', P)[i] != s'[i]);
    }
  }

  /** Feed is exactly the remainder: any word below the divisor's degree that completes some multiple
      of the divisor to the dividend is the register's final value, and conversely. */
  lemma FeedIsTheRemainder(r: Word, m: Word, p: Word, s: Word)
    requires 0 < |r| == |p| == |s|
    ensures s == Feed(|r|, r, m, p) <==>
            exists q :: |q| == |m| && Dividend(r, m) == Recombined(q, s, p)
  {
    FeedIsRemainder(r, m, p);
    if q :| |q| == |m| && Dividend(r, m) == Recombined(q, s, p) {
      RemainderIsUnique(q, s, Quotient(r, m, p), Feed(|r|, r, m, p), p);
    }
  }

  // ----- Augmented division

  /** r x^|m| + m: the message is not multiplied by x^n. */
  function AugDividend(r: Word, m: Word): Word {
    Xor(Zeros(|m|) + r, Reverse(m) + Zeros(|r|))
  }

  /** The quotient bits of augmented division, lowest coefficient first. */
  function AugQuotient(r: Word, m: Word, p: Word): (q: Word)
    requires 0 < |r| == |p|
    ensures |q| == |m|
  {
    if m == [] then []
    else
      var front := m[..|m| - 1];
      [AugFeed(|r|, r, front, p)[|r| - 1]] + AugQuotient(r, front, p)
  }

  /** One more message bit multiplies the dividend by x and adds the bit at x^0. */
  lemma AugDividendGrows(r: Word, m: Word, bit: bool)
    ensures AugDividend(r, m + [bit]) ==
            Xor([false] + AugDividend(r, m), BitAt(|r| + |m| + 1, 0, bit))
  {
  }

  lemma AugStepAddsDivisor(product: Word, k: nat, s: Word, bit: bool, p: Word)
    requires 0 < |s| == |p| && |product| == |s| + k
    ensures var c := s[|s| - 1];
            Xor(Xor(Scale(c, Divisor(p)) + Zeros(k), [false] + product), AugStep(|s|, s, bit, p) + Zeros(k + 1)) ==
            Xor([false] + Xor(product, s + Zeros(k)), BitAt(|s| + k + 1, 0, bit))
  {
  }

  lemma AugStepKeepsIdentity(q: Word, s: Word, bit: bool, p: Word)
    requires 0 < |s| == |p|
    ensures Recombined([s[|s| - 1]] + q, AugStep(|s|, s, bit, p), p) ==
            Xor([false] + Recombined(q, s, p), BitAt(|s| + |q| + 1, 0, bit))
  {
    assert ([s[|s| - 1]] + q)[1..] == q;
    AugStepAddsDivisor(Product(q, Divisor(p)), |q|, s, bit, p);
  }

  /** Augmented division is straight division: r x^|m| + m = AugQuotient P + AugFeed. */
  lemma {:induction false} AugFeedIsRemainder(r: Word, m: Word, p: Word)
    requires 0 < |r| == |p|
    ensures AugDividend(r, m) == Recombined(AugQuotient(r, m, p), AugFeed(|r|, r, m, p), p)
  {
    if m == [] {
      assert AugDividend(r, m) == r == Recombined([], r, p);
    } else {
      var k := |m| - 1;
      var q, s := AugQuotient(r, m[..k], p), AugFeed(|r|, r, m[..k], p);
      AugFeedIsRemainder(r, m[..k], p);
      AugDividendGrows(r, m[..k], m[k]);
      assert m[..k] + [m[k]] == m;
      AugStepKeepsIdentity(q, s, m[k], p);
      assert AugQuotient(r, m, p) == [s[|r| - 1]] + q;
    }
  }

  /** AugFeed is exactly the remainder of that division, for every start value and message length. */
  lemma AugFeedIsTheRemainder(r: Word, m: Word, p: Word, s: Word)
    requires 0 < |r| == |p| == |s|
    ensures s == AugFeed(|r|, r, m, p) <==>
            exists q :: |q| == |m| && AugDividend(r, m) == Recombined(q, s, p)
  {
    AugFeedIsRemainder(r, m, p);
    if q :| |q| == |m| && AugDividend(r, m) == Recombined(q, s, p) {
      RemainderIsUnique(q, s, AugQuotient(r, m, p), AugFeed(|r|, r, m, p), p);
    }
  }

  // ----- The bits above the order

  /** r x^|m| + m x^n + q p for a register of any width, before the width cuts it off. */
  function WideSum(n: nat, r: Word, m: Word, q: Word, p: Word): (t: Word)
    requires n <= |r| == |p| && 0 < |p| && |q| == |m|
    ensures |t| == |r| + |m|
  {
    Xor(Xor(Zeros(|m|) + r, Zeros(n) + Reverse(m) + Zeros(|r| - n)), Product(q, p) + Zeros(1))
  }

  /** One more bit: multiply by x, add the bit at x^n and the divisor as often as the quotient bit says. */
  lemma WideSumGrows(n: nat, r: Word, m: Word, bit: bool, q: Word, c: bool, p: Word)
    requires n <= |r| == |p| && 0 < |p| && |q| == |m|
    ensures WideSum(n, r, m + [bit], [c] + q, p) ==
            Xor(Xor([false] + WideSum(n, r, m, q, p), BitAt(|r| + |m| + 1, n, bit)), Scale(c, p) + Zeros(|m| + 1))
  {
    assert ([c] + q)[1..] == q;
    WideTermsGrow(n, r, m, bit, Product(q, p), c, p);
  }

  lemma WideTermsGrow(n: nat, r: Word, m: Word, bit: bool, product: Word, c: bool, p: Word)
    requires n <= |r| == |p| && 0 < |p| && |product| == |m| + |p| - 1
    ensures Xor(Xor(Zeros(|m| + 1) + r, Zeros(n) + Reverse(m + [bit]) + Zeros(|r| - n)),
                Xor(Scale(c, p) + Zeros(|m|), [false] + product) + Zeros(1)) ==
            Xor(Xor([false] + Xor(Xor(Zeros(|m|) + r, Zeros(n) + Reverse(m) + Zeros(|r| - n)), product + Zeros(1)),
                    BitAt(|r| + |m| + 1, n, bit)),
                Scale(c, p) + Zeros(|m| + 1))
  {
    var k := |m|;
    var a, b := Zeros(k) + r, Zeros(n) + Reverse(m) + Zeros(|r| - n);
    AddZeros(k, r);
    MessageGrows(n, m, bit, |r|);
    ProductGrows(Scale(c, p), k, product);
    ShiftedSum(a, b, product + Zeros(1), BitAt(|r| + k + 1, n, bit), Scale(c, p) + Zeros(k + 1));
  }

  lemma AddZeros(k: nat, r: Word)
    ensures Zeros(k + 1) + r == [false] + (Zeros(k) + r)
  {
  }

  lemma MessageGrows(n: nat, m: Word, bit: bool, width: nat)
    requires n <= width
    ensures Zeros(n) + Reverse(m + [bit]) + Zeros(width - n) ==
            Xor([false] + (Zeros(n) + Reverse(m) + Zeros(width - n)), BitAt(width + |m| + 1, n, bit))
  {
  }

  lemma ProductGrows(scaled: Word, k: nat, product: Word)
    requires |product| + 1 == |scaled| + k
    ensures Xor(scaled + Zeros(k), [false] + product) + Zeros(1)
         == Xor(scaled + Zeros(k + 1), [false] + (product + Zeros(1)))
  {
  }

  lemma ShiftedSum(a: Word, b: Word, d: Word, top: Word, scaled: Word)
    requires |a| == |b| == |d| && |top| == |scaled| == |a| + 1
    ensures Xor(Xor([false] + a, Xor([false] + b, top)), Xor(scaled, [false] + d))
         == Xor(Xor([false] + Xor(Xor(a, b), d), top), scaled)
  {
  }

  lemma StepCutsOff(n: nat, t: Word, bit: bool, p: Word)
    requires 0 < n <= |p| <= |t|
    ensures var c := t[n - 1] != bit;
            Xor(Xor([false] + t, BitAt(|t| + 1, n, bit)), Scale(c, p) + Zeros(|t| + 1 - |p|))[..|p|]
            == Step(n, t[..|p|], bit, p)
  {
  }

  /** A register wider than the order holds, above the order too, the low part of r x^|m| + m x^n + Q p,
      where Q is the quotient of the division at the order's width and p is the whole divisor word. */
  lemma {:induction false} WideFeedIsCutOff(n: nat, r: Word, m: Word, p: Word)
    requires 0 < n <= |r| == |p|
    ensures Feed(n, r, m, p) == WideSum(n, r, m, Quotient(r[..n], m, p[..n]), p)[..|p|]
  {
    if m == [] {
      NoWideSum(n, r, p);
    } else {
      var front, last := m[..|m| - 1], m[|m| - 1];
      WideFeedIsCutOff(n, r, front, p);
      FeedLow(n, r, front, p);
      var f, low, q := Feed(n, r, front, p), Feed(n, r[..n], front, p[..n]), Quotient(r[..n], m, p[..n]);
      assert q == [low[n - 1] != last] + Quotient(r[..n], front, p[..n]);
      WideStep(n, r, m, q, f, low, p);
      assert Feed(n, r, m, p) == Step(n, f, last, p);
    }
  }

  lemma NoWideSum(n: nat, r: Word, p: Word)
    requires n <= |r| == |p| && 0 < |p|
    ensures WideSum(n, r, [], [], p) == r && WideSum(n, r, [], [], p)[..|p|] == r
  {
  }

  lemma LastAndFirst(m: Word, q: Word)
    requires m != [] && q != []
    ensures m[..|m| - 1] + [m[|m| - 1]] == m && [q[0]] + q[1..] == q
  {
  }

  lemma WideStep(n: nat, r: Word, m: Word, q: Word, f: Word, low: Word, p: Word)
    requires 0 < n <= |r| == |p| == |f| && n == |low| && |q| == |m| > 0
    requires f == WideSum(n, r, m[..|m| - 1], q[1..], p)[..|p|] && f[..n] == low
    requires q[0] == (low[n - 1] != m[|m| - 1])
    ensures Step(n, f, m[|m| - 1], p) == WideSum(n, r, m, q, p)[..|p|]
  {
    var front, last := m[..|m| - 1], m[|m| - 1];
    var t := WideSum(n, r, front, q[1..], p);
    LastAndFirst(m, q);
    assert low[n - 1] == f[n - 1] == t[n - 1];
    WideSumGrows(n, r, front, last, q[1..], q[0], p);
    StepCutsOff(n, t, last, p);
  }

  // ----- What the product is

  /** Multiplying by x^k moves the coefficients up by k. With `ProductOfXor` this determines every
      product. */
  lemma {:induction false} ProductByPower(n: nat, k: nat, P: Word)
    requires k < n && |P| > 0
    ensures Product(OneHot(n, k), P) == Zeros(k) + P + Zeros(n - 1 - k)
  {
    var q := OneHot(n, k);
    PowerDown(n, k);
    if k == 0 {
      ProductOfZeros(q[1..], P);
      LowPower(n, P);
    } else {
      ProductByPower(n - 1, k - 1, P);
      HigherPower(n, k, P);
    }
    assert Product(q, P) == Xor(Scale(q[0], P) + Zeros(n - 1), [false] + Product(q[1..], P));
  }

  lemma PowerDown(n: nat, k: nat)
    requires k < n
    ensures OneHot(n, k)[0] == (k == 0)
    ensures OneHot(n, k)[1..] == if k == 0 then Zeros(n - 1) else OneHot(n - 1, k - 1)
  {
  }

  lemma LowPower(n: nat, P: Word)
    requires n > 0 && |P| > 0
    ensures Xor(P + Zeros(n - 1), [false] + Zeros(n - 1 + |P| - 1)) == Zeros(0) + P + Zeros(n - 1)
  {
  }

  lemma HigherPower(n: nat, k: nat, P: Word)
    requires 0 < k < n
    ensures Xor(Zeros(|P|) + Zeros(n - 1), [false] + (Zeros(k - 1) + P + Zeros(n - 1 - k)))
         == Zeros(k) + P + Zeros(n - 1 - k)
  {
  }
}
