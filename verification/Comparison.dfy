/** The arithmetic behind comparing two fractions by their continued-fraction expansions. */
module Comparison {
  import opened Integers

  /** n/d = q + r/d with a non-negative proper remainder. */
  predicate IsMixed(n: int, d: int, q: int, r: int) {
    d > 0 && n == q * d + r && 0 <= r < d
  }

  lemma TruncatedInRange(n: int, d: int, range: IntegerType)
    requires d > 0 && Fits(n, range) && Fits(d, range)
    ensures n == TruncDiv(n, d) * d + TruncMod(n, d) && -d < TruncMod(n, d) < d
    ensures Fits(TruncDiv(n, d), range) && Fits(TruncMod(n, d), range)
  {
    TruncDivMod(n, d);
    var q, r := NatDivMod(Abs(n), d);
    if q > 0 {
      AtLeastFactors(d, q);
    }
  }

  lemma QuotientCanDrop(n: int, d: int, q: int, r: int, range: IntegerType)
    requires d > 0 && n == q * d + r && r < 0 && Fits(n, range) && Fits(q, range)
    ensures Fits(q - 1, range) && n == (q - 1) * d + (r + d)
  {
    if IsLowest(q, range) {
      AtLeastFactors(range.max + 1, d);
      Signs(range.max + 1, d);
    }
  }

  lemma NatDivision(n: int, d: int, range: IntegerType)
    requires 0 < d && 0 < n && Fits(n, range) && Fits(d, range)
    ensures IsMixed(n, d, TruncDiv(n, d), TruncMod(n, d))
    ensures Fits(TruncDiv(n, d), range) && Fits(TruncMod(n, d), range)
  {
    TruncatedInRange(n, d, range);
    TruncDivMod(n, d);
  }

  lemma SmallerQuotient(n: int, d: int, q: int, r: int, n': int, d': int, q': int, r': int)
    requires IsMixed(n, d, q, r) && IsMixed(n', d', q', r') && q < q'
    ensures n * d' < n' * d
  {
    var gap := q' - q - 1;
    calc {
      n' * d - n * d';
      (q' * d' + r') * d - (q * d + r) * d';
      { ExpandDifference(d, q, r, d', q', r'); }
      gap * (d * d') + (d - r) * d' + r' * d;
    }
    AtLeastFactors(d, d');
    AtLeastFactors(d - r, d');
    NonNegativeProduct(gap, d * d');
    NonNegativeProduct(r', d);
  }

  lemma ExpandDifference(d: int, q: int, r: int, d': int, q': int, r': int)
    ensures (q' * d' + r') * d - (q * d + r) * d' == (q' - q - 1) * (d * d') + (d - r) * d' + r' * d
  {
  }

  /** Different quotients decide the order. */
  lemma QuotientsDecide(n: int, d: int, q: int, r: int, n': int, d': int, q': int, r': int)
    requires IsMixed(n, d, q, r) && IsMixed(n', d', q', r') && q != q'
    ensures n * d' < n' * d <==> q < q'
    ensures n' * d < n * d' <==> q' < q
  {
    if q < q' {
      SmallerQuotient(n, d, q, r, n', d', q', r');
    } else {
      SmallerQuotient(n', d', q', r', n, d, q, r);
    }
  }

  /** With equal quotients the order of n/d and n'/d' is the reverse order of d/r and d'/r'. */
  lemma EqualQuotientsReciprocate(n: int, d: int, r: int, n': int, d': int, r': int, q: int)
    requires IsMixed(n, d, q, r) && IsMixed(n', d', q, r')
    ensures n * d' < n' * d <==> d' * r < d * r'
    ensures n' * d < n * d' <==> d * r' < d' * r
  {
    calc {
      n' * d - n * d';
      (q * d' + r') * d - (q * d + r) * d';
      { CancelQuotient(d, q, r, d', r'); }
      d * r' - d' * r;
    }
  }

  lemma CancelQuotient(d: int, q: int, r: int, d': int, r': int)
    ensures (q * d' + r') * d - (q * d + r) * d' == d * r' - d' * r
  {
  }

  /** When an expansion has ended, the remainders decide. */
  lemma RemaindersDecide(d: int, r: int, d': int, r': int)
    requires d > 0 && d' > 0 && r >= 0 && r' >= 0
    ensures r == 0 || r' == 0 ==> (d' * r < d * r' <==> r < r') && (d * r' < d' * r <==> r' < r)
  {
    if r > 0 {
      AtLeastFactors(d', r);
    }
    if r' > 0 {
      AtLeastFactors(d, r');
    }
  }

  /** n/d < i exactly when its floor is. */
  lemma FloorDecides(n: int, d: int, q: int, r: int, i: int)
    requires IsMixed(n, d, q, r)
    ensures n < i * d <==> q < i
  {
    if q < i {
      NonNegativeProduct(i - q - 1, d);
      SplitProduct(i, q + 1, d);
    } else {
      NonNegativeProduct(q - i, d);
      SplitProduct(q, i, d);
    }
  }

  lemma SplitProduct(i: int, j: int, d: int)
    ensures i * d == j * d + (i - j) * d && j * d == (j - 1) * d + d
  {
  }

  lemma NonNegativeProduct(a: nat, b: nat)
    ensures a * b >= 0
  {
  }
}
