/** What the reflected table drivers compute on any register, with or without bits above the order. Nothing
    masks those bits: they come down, eight places a byte, and enter the remainder as if they were input. */
module StrayBits {
  import opened Words
  import opened Reflection
  import opened ModuloDivision
  import opened ErrorDetection
  import opened CrcDrivers

  function Below(n: nat, s: Word): (r: Word)
    requires n <= |s|
    ensures |r| == |s|
  {
    s[..n] + Zeros(|s| - n)
  }

  function Above(n: nat, s: Word): (r: Word)
    requires n <= |s|
    ensures |r| == |s|
  {
    Zeros(n) + s[n..]
  }

  /** The j-th group of eight bits above the order, filled up with zeros. */
  function StrayByte(n: nat, s: Word, j: nat): Byte
    requires n <= |s|
  {
    seq(8, b requires 0 <= b < 8 => n + 8 * j + b < |s| && s[n + 8 * j + b])
  }

  lemma BelowIsClean(n: nat, s: Word)
    requires 8 <= n <= |s|
    ensures Below(n, s)[..n] == s[..n] && Below(n, s)[..8] == s[..8] && CleanAbove(n, Below(n, s))
  {
    assert Below(n, s)[..8] == s[..8];
  }

  // ----- One byte

  lemma ShiftSplits(n: nat, s: Word)
    requires 8 <= n <= |s|
    ensures Shr(s, 8) == Xor(Shr(Below(n, s), 8), Shr(Above(n, s), 8))
  {
  }

  lemma XorSwaps(a: Word, b: Word, c: Word)
    requires |a| == |b| == |c|
    ensures Xor(Xor(a, b), c) == Xor(Xor(a, c), b)
  {
  }

  /** The stray bits just come down: the byte and the register below the order meet as if there were none. */
  lemma StrayBitsComeDown(n: nat, s: Word, byte: Byte, p: Word)
    requires 8 <= n <= |s| == |p|
    ensures TableByte(n, s, byte, p, true)
         == Xor(TableByte(n, Below(n, s), byte, p, true), Shr(Above(n, s), 8))
  {
    BelowIsClean(n, s);
    ShiftSplits(n, s);
    XorSwaps(Shr(Below(n, s), 8), Shr(Above(n, s), 8), Entry(n, Xor(s[..8], byte), p, true));
  }

  /** In the augmented driver, the eight that enter the remainder are or-ed onto the byte, the others come
      down beside it. */
  lemma AugStrayBitsComeDown(n: nat, s: Word, byte: Byte, p: Word)
    requires 8 <= n <= |s| == |p|
    ensures AugTableByte(n, s, byte, p, true)
         == Xor(AugTableByte(n, Below(n, s), Or(byte, StrayByte(n, s, 0)), p, true), Above(n, Shr(s, 8)))
  {
    BelowIsClean(n, s);
    MergeSplits(n, s, byte);
    var clean := Or(Shr(Below(n, s), 8), Shl(Resize(Or(byte, StrayByte(n, s, 0)), |s|), n - 8));
    XorSwaps(clean, Above(n, Shr(s, 8)), Entry(n, s[..8], p, true));
  }

  lemma MergeSplits(n: nat, s: Word, byte: Byte)
    requires 8 <= n <= |s|
    ensures Or(Shr(s, 8), Shl(Resize(byte, |s|), n - 8)) ==
            Xor(Or(Shr(Below(n, s), 8), Shl(Resize(Or(byte, StrayByte(n, s, 0)), |s|), n - 8)), Above(n, Shr(s, 8)))
  {
  }

  // ----- Below the order

  /** The bytes of stray bits that enter the remainder during a run, one for each byte read. */
  function Crossed(n: nat, s: Word, bytes: seq<Byte>, p: Word): (c: seq<Byte>)
    requires 8 <= n <= |s| == |p|
    ensures |c| == |bytes|
  {
    if bytes == [] then []
    else
      var front := bytes[..|bytes| - 1];
      Crossed(n, s, front, p) + [StrayByte(n, TableRun(n, s, front, p, true), 0)]
  }

  lemma ShiftedIn(n: nat, s: Word)
    requires 8 <= n <= |s|
    ensures Shr(Above(n, s), 8)[..n] == Reverse(Reverse(StrayByte(n, s, 0)) + Zeros(n - 8))
  {
  }

  lemma StrayByteMirrors(n: nat, s: Word, byte: Byte, p: Word)
    requires 8 <= n <= |s| == |p|
    ensures TableByte(n, s, byte, p, true)[..n] ==
            Reverse(Xor(Feed(n, Reverse(s[..n]), byte, p[..n]),
                        AugFeed(n, Zeros(n), StrayByte(n, s, 0), p[..n])))
  {
    StrayBitsComeDown(n, s, byte, p);
    BelowIsClean(n, s);
    ReflectedByteMirrors(n, Below(n, s), byte, p);
    ShiftedIn(n, s);
    AugFeedStores(n, StrayByte(n, s, 0), p[..n]);
    XorPrefix(TableByte(n, Below(n, s), byte, p, true), Shr(Above(n, s), 8), n);
    ReverseXor(Feed(n, Reverse(s[..n]), byte, p[..n]), AugFeed(n, Zeros(n), StrayByte(n, s, 0), p[..n]));
  }

  /** One more byte for the sum of a message's register and a stray register. */
  lemma SumAdvances(n: nat, f: Word, a: Word, byte: Byte, stray: Byte, p: Word)
    requires 8 <= n == |f| == |a| == |p|
    ensures Xor(Feed(n, Xor(f, a), byte, p), AugFeed(n, Zeros(n), stray, p))
         == Xor(Feed(n, f, byte, p), AugFeed(n, a, stray, p))
  {
    var zero := Zeros(8);
    XorZeros(byte);
    XorZeros(stray);
    XorZeros(a);
    FeedLinear(n, f, byte, a, zero, p);
    FeedLinear(n, a, zero, Zeros(n), stray, p);
    ZeroInputSame(n, a, 8, p);
    XorAssociates(Feed(n, f, byte, p), AugFeed(n, a, zero, p), AugFeed(n, Zeros(n), stray, p));
  }

  lemma XorAssociates(a: Word, b: Word, c: Word)
    requires |a| == |b| == |c|
    ensures Xor(Xor(a, b), c) == Xor(a, Xor(b, c))
  {
  }

  /** On any register and for any divisor: the reflected driver leaves the mirror image of the bitwise
      remainder, plus the augmented division of the bits that entered from above. */
  lemma {:induction false} RunOnAnyRegister(n: nat, s: Word, bytes: seq<Byte>, p: Word)
    requires 8 <= n <= |s| == |p|
    ensures TableRun(n, s, bytes, p, true)[..n] ==
            Reverse(Xor(Feed(n, Reverse(s[..n]), InputBits(bytes, true), p[..n]),
                        AugFeed(n, Zeros(n), InputBits(Crossed(n, s, bytes, p), true), p[..n])))
  {
    var r := Reverse(s[..n]);
    if bytes == [] {
      ReverseTwice(s[..n]);
      XorZeros(r);
    } else {
      var front, last := bytes[..|bytes| - 1], bytes[|bytes| - 1];
      var t, crossed := TableRun(n, s, front, p, true), Crossed(n, s, front, p);
      var f, a := Feed(n, r, InputBits(front, true), p[..n]), AugFeed(n, Zeros(n), InputBits(crossed, true), p[..n]);
      RunOnAnyRegister(n, s, front, p);
      ReverseTwice(Xor(f, a));
      StrayByteMirrors(n, t, last, p);
      SumAdvances(n, f, a, last, StrayByte(n, t, 0), p[..n]);
      FeedConcat(n, r, InputBits(front, true), last, p[..n]);
      FeedConcat(n, Zeros(n), InputBits(crossed, true), StrayByte(n, t, 0), p[..n]);
      LastInput(crossed, StrayByte(n, t, 0));
    }
  }

  lemma LastInput(bytes: seq<Byte>, last: Byte)
    ensures InputBits(bytes + [last], true) == InputBits(bytes, true) + last
  {
    InputBitsConcat(bytes, [last], true);
    OneByteBits(last);
  }

  /** The bytes as the augmented driver meets them: with the stray bits or-ed on. */
  function Met(n: nat, s: Word, bytes: seq<Byte>, p: Word): (c: seq<Byte>)
    requires 8 <= n <= |s| == |p|
    ensures |c| == |bytes|
  {
    if bytes == [] then []
    else
      var front := bytes[..|bytes| - 1];
      Met(n, s, front, p) + [Or(bytes[|bytes| - 1], StrayByte(n, AugTableRun(n, s, front, p, true), 0))]
  }

  lemma AugStrayByteMirrors(n: nat, s: Word, byte: Byte, p: Word)
    requires 8 <= n <= |s| == |p|
    ensures AugTableByte(n, s, byte, p, true)[..n] ==
            Reverse(AugFeed(n, Reverse(s[..n]), Or(byte, StrayByte(n, s, 0)), p[..n]))
  {
    var met: Byte := Or(byte, StrayByte(n, s, 0));
    AugStrayBitsComeDown(n, s, byte, p);
    BelowIsClean(n, s);
    AugReflectedByteMirrors(n, Below(n, s), met, p);
    XorPrefix(AugTableByte(n, Below(n, s), met, p, true), Above(n, Shr(s, 8)), n);
    XorZeros(AugTableByte(n, Below(n, s), met, p, true)[..n]);
    assert Above(n, Shr(s, 8))[..n] == Zeros(n);
  }

  /** On any register and for any divisor: the reflected augmented driver leaves the mirror image of the
      augmented division of the bytes with the stray bits or-ed on. */
  lemma {:induction false} AugRunOnAnyRegister(n: nat, s: Word, bytes: seq<Byte>, p: Word)
    requires 8 <= n <= |s| == |p|
    ensures AugTableRun(n, s, bytes, p, true)[..n] ==
            Reverse(AugFeed(n, Reverse(s[..n]), InputBits(Met(n, s, bytes, p), true), p[..n]))
  {
    var r := Reverse(s[..n]);
    if bytes == [] {
      ReverseTwice(s[..n]);
    } else {
      var front, last := bytes[..|bytes| - 1], bytes[|bytes| - 1];
      var t, met := AugTableRun(n, s, front, p, true), Met(n, s, front, p);
      var byte: Byte := Or(last, StrayByte(n, t, 0));
      AugRunOnAnyRegister(n, s, front, p);
      ReverseTwice(AugFeed(n, r, InputBits(met, true), p[..n]));
      AugStrayByteMirrors(n, t, last, p);
      FeedConcat(n, r, InputBits(met, true), byte, p[..n]);
      LastInput(met, byte);
    }
  }

  // ----- Above the order

  /** Above the order, a byte of either driver shifts the stray bits down and adds what division of the unit
      leaves there. */
  lemma ByteAbove(n: nat, s: Word, byte: Byte, p: Word, i: nat)
    requires 8 <= n <= i < |s| == |p|
    ensures TableByte(n, s, byte, p, true)[i] ==
            ((i + 8 < |s| && s[i + 8]) != Feed(n, Zeros(|p|), Xor(s[..8], byte), p)[i])
    ensures AugTableByte(n, s, byte, p, true)[i] ==
            ((i + 8 < |s| && s[i + 8]) != Feed(n, Zeros(|p|), s[..8], p)[i])
  {
  }

  /** The bit at a position, zero beyond the width. */
  predicate BitOf(s: Word, i: nat) {
    i < |s| && s[i]
  }

  /** t is s with the bits above the order brought down by k places. */
  ghost predicate Down(n: nat, s: Word, t: Word, k: nat) {
    |t| == |s| && forall i: nat :: n <= i < |t| ==> t[i] == BitOf(s, i + k)
  }

  /** If the divisor cancels, division leaves nothing there, and the stray bits come down unchanged. */
  lemma {:induction false} CancelledRunAbove(n: nat, s: Word, bytes: seq<Byte>, p: Word)
    requires 8 <= n <= |s| == |p| && DivisorCancels(n, p)
    ensures Down(n, s, TableRun(n, s, bytes, p, true), 8 * |bytes|)
  {
    if bytes != [] {
      var front := bytes[..|bytes| - 1];
      CancelledRunAbove(n, s, front, p);
      var t, t' := LastByteAbove(n, s, bytes, p);
      FurtherDown(n, s, t, t', 8 * |front|, 8 * |bytes|);
    } else {
      NotDown(n, s);
    }
  }

  lemma LastByteAbove(n: nat, s: Word, bytes: seq<Byte>, p: Word) returns (t: Word, t': Word)
    requires 8 <= n <= |s| == |p| && DivisorCancels(n, p) && bytes != []
    ensures t == TableRun(n, s, bytes[..|bytes| - 1], p, true)
    ensures t' == TableRun(n, s, bytes, p, true) && Down(n, t, t', 8)
  {
    t := TableRun(n, s, bytes[..|bytes| - 1], p, true);
    t' := TableByte(n, t, bytes[|bytes| - 1], p, true);
    CancelledByteAbove(n, t, bytes[|bytes| - 1], p);
  }

  lemma {:induction false} CancelledAugRunAbove(n: nat, s: Word, bytes: seq<Byte>, p: Word)
    requires 8 <= n <= |s| == |p| && DivisorCancels(n, p)
    ensures Down(n, s, AugTableRun(n, s, bytes, p, true), 8 * |bytes|)
  {
    if bytes != [] {
      var front := bytes[..|bytes| - 1];
      CancelledAugRunAbove(n, s, front, p);
      var t, t' := LastAugByteAbove(n, s, bytes, p);
      FurtherDown(n, s, t, t', 8 * |front|, 8 * |bytes|);
    } else {
      NotDown(n, s);
    }
  }

  lemma LastAugByteAbove(n: nat, s: Word, bytes: seq<Byte>, p: Word) returns (t: Word, t': Word)
    requires 8 <= n <= |s| == |p| && DivisorCancels(n, p) && bytes != []
    ensures t == AugTableRun(n, s, bytes[..|bytes| - 1], p, true)
    ensures t' == AugTableRun(n, s, bytes, p, true) && Down(n, t, t', 8)
  {
    t := AugTableRun(n, s, bytes[..|bytes| - 1], p, true);
    t' := AugTableByte(n, t, bytes[|bytes| - 1], p, true);
    CancelledByteAbove(n, t, bytes[|bytes| - 1], p);
  }

  lemma NotDown(n: nat, s: Word)
    ensures Down(n, s, s, 0)
  {
  }

  lemma FurtherDown(n: nat, s: Word, t: Word, t': Word, k: nat, k': nat)
    requires Down(n, s, t, k) && Down(n, t, t', 8) && k' == k + 8
    ensures Down(n, s, t', k')
  {
    forall i: nat | n <= i < |t'| ensures t'[i] == BitOf(s, i + k') {
      assert BitOf(t, i + 8) == (i + 8 < |t| && t[i + 8]);
    }
  }

  lemma CancelledByteAbove(n: nat, s: Word, byte: Byte, p: Word)
    requires 8 <= n <= |s| == |p| && DivisorCancels(n, p)
    ensures Down(n, s, TableByte(n, s, byte, p, true), 8) && Down(n, s, AugTableByte(n, s, byte, p, true), 8)
  {
    forall i: nat | n <= i < |s|
      ensures TableByte(n, s, byte, p, true)[i] == BitOf(s, i + 8) == AugTableByte(n, s, byte, p, true)[i]
    {
      ByteAbove(n, s, byte, p, i);
      UnitLeavesNothing(n, Xor(s[..8], byte), p, i);
      UnitLeavesNothing(n, s[..8], p, i);
    }
  }

  lemma UnitLeavesNothing(n: nat, unit: Byte, p: Word, i: nat)
    requires 8 <= n <= i < |p| && DivisorCancels(n, p)
    ensures !Feed(n, Zeros(|p|), unit, p)[i]
  {
    assert CleanAbove(n, Zeros(|p|));
    FeedStaysClean(n, Zeros(|p|), unit, p);
    assert Feed(n, Zeros(|p|), unit, p)[i] == Feed(n, Zeros(|p|), unit, p)[n..][i - n];
  }

  lemma StrayBytesDown(n: nat, s: Word, t: Word, j: nat)
    requires n <= |s| && Down(n, s, t, 8 * j)
    ensures StrayByte(n, t, 0) == StrayByte(n, s, j)
  {
    forall b | 0 <= b < 8 ensures StrayByte(n, t, 0)[b] == StrayByte(n, s, j)[b] {
      assert n + b < |t| ==> t[n + b] == BitOf(s, n + b + 8 * j);
    }
  }

  /** So the bytes that enter are those of the register that the run started with. */
  lemma {:induction false} CancelledCrossing(n: nat, s: Word, bytes: seq<Byte>, p: Word, j: nat)
    requires 8 <= n <= |s| == |p| && DivisorCancels(n, p) && j < |bytes|
    ensures Crossed(n, s, bytes, p)[j] == StrayByte(n, s, j)
  {
    var front := bytes[..|bytes| - 1];
    if j < |front| {
      CancelledCrossing(n, s, front, p, j);
      assert Crossed(n, s, bytes, p)[..|front|] == Crossed(n, s, front, p);
    } else {
      var stray := StrayByte(n, TableRun(n, s, front, p, true), 0);
      CancelledRunAbove(n, s, front, p);
      StrayBytesDown(n, s, TableRun(n, s, front, p, true), j);
      assert Crossed(n, s, bytes, p) == Crossed(n, s, front, p) + [stray];
    }
  }

  lemma {:induction false} CancelledMeeting(n: nat, s: Word, bytes: seq<Byte>, p: Word, j: nat)
    requires 8 <= n <= |s| == |p| && DivisorCancels(n, p) && j < |bytes|
    ensures Met(n, s, bytes, p)[j] == Or(bytes[j], StrayByte(n, s, j))
  {
    var front := bytes[..|bytes| - 1];
    if j < |front| {
      CancelledMeeting(n, s, front, p, j);
      assert Met(n, s, bytes, p)[..|front|] == Met(n, s, front, p);
    } else {
      var stray := StrayByte(n, AugTableRun(n, s, front, p, true), 0);
      CancelledAugRunAbove(n, s, front, p);
      StrayBytesDown(n, s, AugTableRun(n, s, front, p, true), j);
      assert Met(n, s, bytes, p) == Met(n, s, front, p) + [Or(bytes[j], stray)];
    }
  }
}
