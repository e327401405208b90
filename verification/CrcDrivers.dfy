/** Partial-product tables and the byte-fed drivers that use them in place of the bit loop. */
module CrcDrivers {
  import opened Words
  import opened Reflection
  import opened ModuloDivision
  import opened ErrorDetection

  /** The bits of a byte run in processing order. */
  function InputBits(bytes: seq<Byte>, reflect: bool): Word {
    if bytes == [] then []
    else InputBits(bytes[..|bytes| - 1], reflect) + InOrder(bytes[|bytes| - 1], reflect)
  }

  lemma {:induction false} InputBitsLength(bytes: seq<Byte>, reflect: bool)
    ensures |InputBits(bytes, reflect)| == 8 * |bytes|
  {
    if bytes != [] {
      InputBitsLength(bytes[..|bytes| - 1], reflect);
    }
  }

  /** Bit by bit: bytes in order, and within a byte from the lowest bit up or from the highest down. */
  lemma {:induction false} InputBitsAt(bytes: seq<Byte>, reflect: bool, i: nat, j: nat)
    requires i < |bytes| && j < 8
    ensures 8 * i + j < |InputBits(bytes, reflect)|
    ensures InputBits(bytes, reflect)[8 * i + j] == if reflect then bytes[i][j] else bytes[i][7 - j]
  {
    var front := bytes[..|bytes| - 1];
    InputBitsLength(front, reflect);
    InputBitsLength(bytes, reflect);
    if i < |front| {
      InputBitsAt(front, reflect, i, j);
    }
  }

  lemma {:induction false} InputBitsConcat(a: seq<Byte>, b: seq<Byte>, reflect: bool)
    ensures InputBits(a + b, reflect) == InputBits(a, reflect) + InputBits(b, reflect)
  {
    if b == [] {
      assert a + b == a;
    } else {
      var front, last := b[..|b| - 1], InOrder(b[|b| - 1], reflect);
      assert (a + b)[..|a + b| - 1] == a + front;
      InputBitsConcat(a, front, reflect);
      Regrouped(InputBits(a, reflect), InputBits(front, reflect), last);
    }
  }

  /** The bytes whose bits, in processing order, are the given ones. */
  function Packed(bits: Word, reflect: bool): seq<Byte>
    requires |bits| % 8 == 0
  {
    if bits == [] then [] else Packed(bits[..|bits| - 8], reflect) + [InOrder(bits[|bits| - 8..], reflect)]
  }

  lemma {:induction false} PackedBits(bits: Word, reflect: bool)
    requires |bits| % 8 == 0
    ensures InputBits(Packed(bits, reflect), reflect) == bits
  {
    if bits != [] {
      var front, last := bits[..|bits| - 8], bits[|bits| - 8..];
      PackedBits(front, reflect);
      ReverseTwice(last);
      var bytes := Packed(bits, reflect);
      assert bytes[..|bytes| - 1] == Packed(front, reflect);
    }
  }

  /** What a table must hold for the unit i: the effect of the unit on a zero register, mirrored for
      the reflected drivers. The bits at and above the order are whatever division left there. */
  function Entry(n: nat, unit: Word, p: Word, reflect: bool): (r: Word)
    requires 0 < n <= |p|
    ensures |r| == |p|
  {
    var product := Feed(n, Zeros(|p|), InOrder(unit, reflect), p);
    if reflect then ReflectLow(product, n) else product
  }

  ghost predicate IsTable(table: seq<Word>, subOrder: nat, n: nat, p: Word, reflect: bool)
    requires 0 < n <= |p|
  {
    forall unit: Word {:trigger Entry(n, unit, p, reflect)} :: |unit| == subOrder ==>
      ToNat(unit) < |table| && table[ToNat(unit)] == Entry(n, unit, p, reflect)
  }

  /** The unit whose slot the table loop fills for a dividend. */
  function UnitOf(subOrder: nat, dividend: nat, reflect: bool): (u: Word)
    ensures |u| == subOrder
  {
    InOrder(FromNat(subOrder, dividend), !reflect)
  }

  /** Every unit is met by exactly one dividend, so every slot is written exactly once. */
  lemma EachSlotOnce(subOrder: nat, unit: Word, reflect: bool) returns (dividend: nat)
    requires |unit| == subOrder
    ensures dividend < Pow2(subOrder) && UnitOf(subOrder, dividend, reflect) == unit
    ensures forall other: nat :: other < Pow2(subOrder) && UnitOf(subOrder, other, reflect) == unit
                            ==> other == dividend
  {
    var word := InOrder(unit, !reflect);
    dividend := ToNat(word);
    ToNatBound(word);
    FromToNat(word);
    ReverseTwice(unit);
    forall other: nat | other < Pow2(subOrder) && UnitOf(subOrder, other, reflect) == unit
      ensures other == dividend
    {
      ReverseTwice(FromNat(subOrder, other));
      ToFromNat(subOrder, other);
    }
  }

  /** The slots of the first count dividends hold their entries. */
  ghost predicate Filled(table: seq<Word>, count: nat, subOrder: nat, n: nat, p: Word, reflect: bool)
    requires 0 < n <= |p|
  {
    forall d: nat :: d < count ==> SlotHolds(table, UnitOf(subOrder, d, reflect), n, p, reflect)
  }

  predicate SlotHolds(table: seq<Word>, unit: Word, n: nat, p: Word, reflect: bool)
    requires 0 < n <= |p|
  {
    ToNat(unit) < |table| && table[ToNat(unit)] == Entry(n, unit, p, reflect)
  }

  lemma FillNextSlot(table: seq<Word>, d: nat, subOrder: nat, n: nat, p: Word, reflect: bool)
    requires 0 < n <= |p| && |table| == Pow2(subOrder) && d < Pow2(subOrder)
    requires Filled(table, d, subOrder, n, p, reflect) && ToNat(UnitOf(subOrder, d, reflect)) < |table|
    ensures var unit := UnitOf(subOrder, d, reflect);
            Filled(table[ToNat(unit) := Entry(n, unit, p, reflect)], d + 1, subOrder, n, p, reflect)
  {
    var unit := UnitOf(subOrder, d, reflect);
    var table' := table[ToNat(unit) := Entry(n, unit, p, reflect)];
    forall e: nat | e < d + 1
      ensures SlotHolds(table', UnitOf(subOrder, e, reflect), n, p, reflect)
    {
      if e < d {
        SlotsDiffer(subOrder, e, d, reflect);
        assert SlotHolds(table, UnitOf(subOrder, e, reflect), n, p, reflect);
      }
    }
  }

  lemma AllSlotsFilled(table: seq<Word>, subOrder: nat, n: nat, p: Word, reflect: bool)
    requires 0 < n <= |p| && Filled(table, Pow2(subOrder), subOrder, n, p, reflect)
    ensures IsTable(table, subOrder, n, p, reflect)
  {
    forall unit: Word | |unit| == subOrder
      ensures ToNat(unit) < |table| && table[ToNat(unit)] == Entry(n, unit, p, reflect)
    {
      var d := EachSlotOnce(subOrder, unit, reflect);
      assert SlotHolds(table, UnitOf(subOrder, d, reflect), n, p, reflect);
    }
  }

  method MakePartialXorProductsTable(subOrder: nat, registerLength: nat, truncatedDivisor: Word,
                                     reflect: bool)
    returns (result: array<Word>)
    requires 0 < subOrder <= registerLength <= |truncatedDivisor|
    ensures fresh(result) && result.Length == Pow2(subOrder)
    ensures IsTable(result[..], subOrder, registerLength, truncatedDivisor, reflect)
  {
    var p := truncatedDivisor;
    result := new Word[Pow2(subOrder)];
    var dividend := 0;
    while dividend < result.Length
      invariant dividend <= result.Length
      invariant Filled(result[..], dividend, subOrder, registerLength, p, reflect)
    {
      var index, remainder := SlotOfDividend(subOrder, dividend, registerLength, p, reflect);
      FillNextSlot(result[..], dividend, subOrder, registerLength, p, reflect);
      ghost var before := result[..];
      result[index] := remainder;
      assert result[..] == before[index := remainder];
      dividend := dividend + 1;
    }
    AllSlotsFilled(result[..], subOrder, registerLength, p, reflect);
  }

  /** The slot that one round of the table loop fills, and what it is filled with. */
  method SlotOfDividend(subOrder: nat, dividend: nat, registerLength: nat, p: Word, reflect: bool)
    returns (slot: nat, remainder: Word)
    requires 0 < subOrder <= registerLength <= |p| && dividend < Pow2(subOrder)
    ensures slot == ToNat(UnitOf(subOrder, dividend, reflect)) < Pow2(subOrder)
    ensures remainder == Entry(registerLength, UnitOf(subOrder, dividend, reflect), p, reflect)
  {
    UnitOfDividend(subOrder, dividend, reflect);
    var word := FromNat(subOrder + 1, dividend);
    remainder := CrcModuloWordUpdate(registerLength, Zeros(|p|), word, p, subOrder, false);
    var index := ReflectOptionally(word, reflect, subOrder);
    slot := ToNat(index);
    remainder := ReflectOptionally(remainder, reflect, registerLength);
  }

  lemma UnitOfDividend(subOrder: nat, dividend: nat, reflect: bool)
    requires 0 < subOrder && dividend < Pow2(subOrder)
    ensures var word := FromNat(subOrder + 1, dividend);
            var unit := UnitOf(subOrder, dividend, reflect);
            && ToNat(unit) < Pow2(subOrder)
            && ToNat(if reflect then ReflectLow(word, subOrder) else word) == ToNat(unit)
            && InOrder(word[..subOrder], false) == InOrder(unit, reflect)
  {
    var word := FromNat(subOrder + 1, dividend);
    var unit := UnitOf(subOrder, dividend, reflect);
    FromNatWider(subOrder, 1, dividend);
    ToNatBound(unit);
    ToNatPadded(unit, 1);
    ReverseTwice(FromNat(subOrder, dividend));
    assert word[..subOrder] == FromNat(subOrder, dividend);
    assert (if reflect then ReflectLow(word, subOrder) else word) == unit + Zeros(1);
  }

  lemma SlotsDiffer(subOrder: nat, a: nat, b: nat, reflect: bool)
    requires a < b < Pow2(subOrder)
    ensures ToNat(UnitOf(subOrder, a, reflect)) != ToNat(UnitOf(subOrder, b, reflect))
  {
    var u, v := UnitOf(subOrder, a, reflect), UnitOf(subOrder, b, reflect);
    if ToNat(u) == ToNat(v) {
      FromToNat(u);
      FromToNat(v);
      var d := EachSlotOnce(subOrder, u, reflect);
    }
  }

  /** The table's element for a byte. */
  method Partial(table: array<Word>, index: Byte, ghost n: nat, ghost p: Word, ghost reflect: bool)
    returns (product: Word)
    requires 0 < n <= |p| && IsTable(table[..], 8, n, p, reflect)
    ensures product == Entry(n, index, p, reflect)
  {
    ghost var entry := Entry(n, index, p, reflect);
    product := table[ToNat(index)];
  }

  // ----- What the table drivers leave in the whole register

  /** One byte of the unaugmented table drivers. */
  function TableByte(n: nat, s: Word, byte: Byte, p: Word, reflect: bool): (s': Word)
    requires 8 <= n <= |s| == |p|
    ensures |s'| == |s|
  {
    if reflect then Xor(Shr(s, 8), Entry(n, Xor(s[..8], byte), p, true))
    else Xor(Shl(s, 8), Entry(n, Xor(s[n - 8..n], byte), p, false))
  }

  function TableRun(n: nat, s: Word, bytes: seq<Byte>, p: Word, reflect: bool): (s': Word)
    requires 8 <= n <= |s| == |p|
    ensures |s'| == |s|
  {
    if bytes == [] then s
    else TableByte(n, TableRun(n, s, bytes[..|bytes| - 1], p, reflect), bytes[|bytes| - 1], p, reflect)
  }

  /** One byte of the augmented table drivers: the byte is stored where the register was vacated. */
  function AugTableByte(n: nat, s: Word, byte: Byte, p: Word, reflect: bool): (s': Word)
    requires 8 <= n <= |s| == |p|
    ensures |s'| == |s|
  {
    if reflect then Xor(Or(Shr(s, 8), Shl(Resize(byte, |s|), n - 8)), Entry(n, s[..8], p, true))
    else Xor(Or(Shl(s, 8), Resize(byte, |s|)), Entry(n, s[n - 8..n], p, false))
  }

  function AugTableRun(n: nat, s: Word, bytes: seq<Byte>, p: Word, reflect: bool): (s': Word)
    requires 8 <= n <= |s| == |p|
    ensures |s'| == |s|
  {
    if bytes == [] then s
    else AugTableByte(n, AugTableRun(n, s, bytes[..|bytes| - 1], p, reflect), bytes[|bytes| - 1], p, reflect)
  }

  lemma NextTableByte(n: nat, s: Word, bytes: seq<Byte>, k: nat, p: Word, reflect: bool)
    requires 8 <= n <= |s| == |p| && k < |bytes|
    ensures TableRun(n, s, bytes[..k + 1], p, reflect)
         == TableByte(n, TableRun(n, s, bytes[..k], p, reflect), bytes[k], p, reflect)
    ensures AugTableRun(n, s, bytes[..k + 1], p, reflect)
         == AugTableByte(n, AugTableRun(n, s, bytes[..k], p, reflect), bytes[k], p, reflect)
  {
    assert bytes[..k + 1][..k] == bytes[..k];
  }

  lemma {:induction false} TableRunConcat(n: nat, s: Word, a: seq<Byte>, b: seq<Byte>, p: Word, reflect: bool)
    requires 8 <= n <= |s| == |p|
    ensures TableRun(n, s, a + b, p, reflect) == TableRun(n, TableRun(n, s, a, p, reflect), b, p, reflect)
    ensures AugTableRun(n, s, a + b, p, reflect) == AugTableRun(n, AugTableRun(n, s, a, p, reflect), b, p, reflect)
  {
    if b == [] {
      assert a + b == a;
    } else {
      assert (a + b)[..|a + b| - 1] == a + b[..|b| - 1];
      TableRunConcat(n, s, a, b[..|b| - 1], p, reflect);
    }
  }

  // ----- Direct drivers refine the bit loop

  lemma DirectByteRefines(n: nat, s: Word, byte: Byte, p: Word)
    requires 8 <= n <= |s| == |p|
    ensures TableByte(n, s, byte, p, false)[..n] == Feed(n, s[..n], Reverse(byte), p[..n])
  {
    var unit := Xor(s[n - 8..n], byte);
    FeedByTable(n, s[..n], Reverse(byte), p[..n]);
    assert s[n - 8..n] == s[..n][n - 8..];
    ReverseXor(s[n - 8..n], byte);
    EntryLow(n, unit, p, false);
    assert Shl(s, 8)[..n] == Shl(s[..n], 8);
    XorPrefix(Shl(s, 8), Entry(n, unit, p, false), n);
  }

  lemma AugDirectByteRefines(n: nat, s: Word, byte: Byte, p: Word)
    requires 8 <= n <= |s| == |p|
    ensures AugTableByte(n, s, byte, p, false)[..n] == AugFeed(n, s[..n], Reverse(byte), p[..n])
  {
    AugFeedByTable(n, s[..n], Reverse(byte), p[..n]);
    StoredBelow(n, s, byte);
    ReverseTwice(byte);
    var entry := Entry(n, s[n - 8..n], p, false);
    EntryLow(n, s[n - 8..n], p, false);
    XorPrefix(Or(Shl(s, 8), Resize(byte, |s|)), entry, n);
  }

  lemma StoredBelow(n: nat, s: Word, byte: Byte)
    requires 8 <= n <= |s|
    ensures Or(Shl(s, 8), Resize(byte, |s|))[..n] == byte + s[..n][..n - 8]
    ensures s[..n][n - 8..] == s[n - 8..n]
  {
    var merged := Or(Shl(s, 8), Resize(byte, |s|));
    forall i | 0 <= i < n ensures merged[i] == (byte + s[..n][..n - 8])[i] {
    }
  }

  lemma EntryLow(n: nat, unit: Byte, p: Word, reflect: bool)
    requires 8 <= n <= |p|
    ensures Entry(n, unit, p, reflect)[..n] ==
            if reflect then Reverse(Feed(n, Zeros(n), unit, p[..n]))
            else Feed(n, Zeros(n), Reverse(unit), p[..n])
  {
    FeedLow(n, Zeros(|p|), InOrder(unit, reflect), p);
    assert Zeros(|p|)[..n] == Zeros(n);
  }

  /** Whatever lies above the order, the direct drivers divide correctly below it. */
  lemma {:induction false} DirectRunRefines(n: nat, s: Word, bytes: seq<Byte>, p: Word)
    requires 8 <= n <= |s| == |p|
    ensures TableRun(n, s, bytes, p, false)[..n] == Feed(n, s[..n], InputBits(bytes, false), p[..n])
    ensures AugTableRun(n, s, bytes, p, false)[..n] == AugFeed(n, s[..n], InputBits(bytes, false), p[..n])
  {
    if bytes != [] {
      var front, last := bytes[..|bytes| - 1], bytes[|bytes| - 1];
      DirectRunRefines(n, s, front, p);
      DirectByteRefines(n, TableRun(n, s, front, p, false), last, p);
      AugDirectByteRefines(n, AugTableRun(n, s, front, p, false), last, p);
      FeedConcat(n, s[..n], InputBits(front, false), Reverse(last), p[..n]);
    }
  }

  method DirectByte(order: nat, p: Word, oldRemainder: Word, byte: Byte, table: array<Word>)
    returns (remainder: Word)
    requires 8 <= order <= |oldRemainder| == |p| && IsTable(table[..], 8, order, p, false)
    ensures remainder == TableByte(order, oldRemainder, byte, p, false)
  {
    TopByte(oldRemainder, order);
    var index := Xor(Shr(oldRemainder, order - 8)[..8], byte);
    var product := Partial(table, index, order, p, false);
    remainder := Shl(oldRemainder, 8);
    remainder := Xor(remainder, product);
  }

  method DirectAugmentedByte(order: nat, p: Word, oldRemainder: Word, byte: Byte, table: array<Word>)
    returns (remainder: Word)
    requires 8 <= order <= |oldRemainder| == |p| && IsTable(table[..], 8, order, p, false)
    ensures remainder == AugTableByte(order, oldRemainder, byte, p, false)
  {
    TopByte(oldRemainder, order);
    var index := Shr(oldRemainder, order - 8)[..8];
    var product := Partial(table, index, order, p, false);
    remainder := Shl(oldRemainder, 8);
    remainder := Or(remainder, Resize(byte, |p|));
    remainder := Xor(remainder, product);
  }

  lemma TopByte(s: Word, n: nat)
    requires 8 <= n <= |s|
    ensures Shr(s, n - 8)[..8] == s[n - 8..n]
  {
  }

  method DirectCrcUpdate(order: nat, p: Word, oldRemainder: Word, buffer: array<Byte>, start: nat, count: nat)
    returns (remainder: Word)
    requires 8 <= order <= |oldRemainder| == |p|
    requires start + count <= buffer.Length
    ensures remainder == TableRun(order, oldRemainder, buffer[start..start + count], p, false)
    ensures remainder[..order] ==
            Feed(order, oldRemainder[..order], InputBits(buffer[start..start + count], false), p[..order])
  {
    var table := MakePartialXorProductsTable(8, order, p, false);
    ghost var bytes := buffer[start..start + count];
    remainder := oldRemainder;
    var k := 0;
    while k < count
      invariant IsTable(table[..], 8, order, p, false)
      invariant k <= count && |remainder| == |p|
      invariant remainder == TableRun(order, oldRemainder, bytes[..k], p, false)
    {
      NextTableByte(order, oldRemainder, bytes, k, p, false);
      remainder := DirectByte(order, p, remainder, buffer[start + k], table);
      k := k + 1;
    }
    assert bytes[..count] == bytes;
    DirectRunRefines(order, oldRemainder, bytes, p);
  }

  method DirectAugmentedCrcUpdate(order: nat, p: Word, oldRemainder: Word, buffer: array<Byte>, start: nat, count: nat)
    returns (remainder: Word)
    requires 8 <= order <= |oldRemainder| == |p|
    requires start + count <= buffer.Length
    ensures remainder == AugTableRun(order, oldRemainder, buffer[start..start + count], p, false)
    ensures remainder[..order] ==
            AugFeed(order, oldRemainder[..order], InputBits(buffer[start..start + count], false), p[..order])
  {
    var table := MakePartialXorProductsTable(8, order, p, false);
    ghost var bytes := buffer[start..start + count];
    remainder := oldRemainder;
    var k := 0;
    while k < count
      invariant IsTable(table[..], 8, order, p, false)
      invariant k <= count && |remainder| == |p|
      invariant remainder == AugTableRun(order, oldRemainder, bytes[..k], p, false)
    {
      NextTableByte(order, oldRemainder, bytes, k, p, false);
      remainder := DirectAugmentedByte(order, p, remainder, buffer[start + k], table);
      k := k + 1;
    }
    assert bytes[..count] == bytes;
    DirectRunRefines(order, oldRemainder, bytes, p);
  }

  // ----- Reflected drivers mirror the bit loop on a clean register

  /** The bits above the order are zero. */
  predicate CleanAbove(n: nat, s: Word)
    requires n <= |s|
  {
    s[n..] == Zeros(|s| - n)
  }

  /** The divisor cancels the quotient bit that a shift leaves at bit n, if there is such a bit. */
  predicate DivisorCancels(n: nat, p: Word)
    requires n <= |p|
  {
    n < |p| ==> p[n..] == OneHot(|p| - n, 0)
  }

  /** A divisor that cancels the bit at n keeps a clean register clean. */
  lemma {:induction false} FeedStaysClean(n: nat, r: Word, bits: Word, p: Word)
    requires 0 < n <= |r| == |p| && CleanAbove(n, r) && DivisorCancels(n, p)
    ensures CleanAbove(n, Feed(n, r, bits, p))
  {
    if bits != [] {
      var k := |bits| - 1;
      FeedStaysClean(n, r, bits[..k], p);
      StepStaysClean(n, Feed(n, r, bits[..k], p), bits[k], p);
    }
  }

  lemma StepStaysClean(n: nat, r: Word, bit: bool, p: Word)
    requires 0 < n <= |r| == |p| && CleanAbove(n, r) && DivisorCancels(n, p)
    ensures CleanAbove(n, Step(n, r, bit, p))
  {
    forall i | n <= i < |r| ensures !Step(n, r, bit, p)[i] {
      assert r[i] == r[n..][i - n];
      assert p[i] == p[n..][i - n];
      assert i > n ==> r[i - 1] == r[n..][i - 1 - n];
    }
  }

  lemma EntryStaysClean(n: nat, unit: Byte, p: Word)
    requires 8 <= n <= |p| && DivisorCancels(n, p)
    ensures CleanAbove(n, Entry(n, unit, p, true))
  {
    assert CleanAbove(n, Zeros(|p|));
    FeedStaysClean(n, Zeros(|p|), unit, p);
    assert Entry(n, unit, p, true)[n..] == Feed(n, Zeros(|p|), unit, p)[n..];
  }

  lemma CleanShift(n: nat, s: Word, k: nat)
    requires k <= n <= |s| && CleanAbove(n, s)
    ensures Shr(s, k)[..n] == Shr(s[..n], k) && CleanAbove(n, Shr(s, k))
  {
    assert forall i :: n <= i < |s| ==> s[i] == s[n..][i - n];
  }

  /** On a clean register, shifting down mirrors shifting up. */
  lemma ShiftMirrors(n: nat, s: Word)
    requires 8 <= n <= |s| && CleanAbove(n, s)
    ensures Shr(s, 8)[..n] == Reverse(Shl(Reverse(s[..n]), 8)) && CleanAbove(n, Shr(s, 8))
    ensures Reverse(Reverse(s[..n])[n - 8..]) == s[..8]
  {
    CleanShift(n, s, 8);
    assert Reverse(Shl(Reverse(s[..n]), 8)) == Shr(s[..n], 8);
  }

  lemma EntryMerges(n: nat, a: Word, unit: Byte, p: Word)
    requires 8 <= n <= |a| == |p|
    ensures Xor(a, Entry(n, unit, p, true))[..n] == Xor(a[..n], Reverse(Feed(n, Zeros(n), unit, p[..n])))
    ensures CleanAbove(n, a) && DivisorCancels(n, p) ==> CleanAbove(n, Xor(a, Entry(n, unit, p, true)))
  {
    XorPrefix(a, Entry(n, unit, p, true), n);
    EntryLow(n, unit, p, true);
    if CleanAbove(n, a) && DivisorCancels(n, p) {
      EntryStaysClean(n, unit, p);
    }
  }

  /** One byte of the reflected driver is eight steps on the mirrored register, lowest bit first,
      provided nothing above the order can be shifted down into it. */
  lemma ReflectedByteMirrors(n: nat, s: Word, byte: Byte, p: Word)
    requires 8 <= n <= |s| == |p| && CleanAbove(n, s)
    ensures TableByte(n, s, byte, p, true)[..n] == Reverse(Feed(n, Reverse(s[..n]), byte, p[..n]))
    ensures DivisorCancels(n, p) ==> CleanAbove(n, TableByte(n, s, byte, p, true))
  {
    var r := Reverse(s[..n]);
    var unit := Xor(s[..8], byte);
    ShiftMirrors(n, s);
    EntryMerges(n, Shr(s, 8), unit, p);
    FeedByTable(n, r, byte, p[..n]);
    ReverseXor(Shl(r, 8), Feed(n, Zeros(n), unit, p[..n]));
  }

  lemma AugReflectedByteMirrors(n: nat, s: Word, byte: Byte, p: Word)
    requires 8 <= n <= |s| == |p| && CleanAbove(n, s)
    ensures AugTableByte(n, s, byte, p, true)[..n] == Reverse(AugFeed(n, Reverse(s[..n]), byte, p[..n]))
    ensures DivisorCancels(n, p) ==> CleanAbove(n, AugTableByte(n, s, byte, p, true))
  {
    var r := Reverse(s[..n]);
    ShiftMirrors(n, s);
    MergedLow(n, s, byte);
    EntryMerges(n, Or(Shr(s, 8), Shl(Resize(byte, |s|), n - 8)), s[..8], p);
    AugFeedByTable(n, r, byte, p[..n]);
    ReverseXor(Reverse(byte) + r[..n - 8], Feed(n, Zeros(n), s[..8], p[..n]));
  }

  lemma MergedLow(n: nat, s: Word, byte: Byte)
    requires 8 <= n <= |s| && CleanAbove(n, s)
    ensures var merged := Or(Shr(s, 8), Shl(Resize(byte, |s|), n - 8));
            merged[..n] == Reverse(Reverse(byte) + Reverse(s[..n])[..n - 8]) && CleanAbove(n, merged)
  {
    var merged := Or(Shr(s, 8), Shl(Resize(byte, |s|), n - 8));
    assert forall i :: n <= i < |s| ==> s[i] == s[n..][i - n];
    assert forall i :: n <= i < |s| ==> !merged[i];
    assert forall i :: 0 <= i < n ==> merged[i] == (if i < n - 8 then s[i + 8] else byte[i - (n - 8)]);
    assert merged[..n] == s[8..n] + byte;
    MirroredStore(s[..n], byte);
    assert s[..n][8..] == s[8..n];
  }

  lemma MirroredStore(low: Word, byte: Byte)
    requires |low| >= 8
    ensures Reverse(Reverse(byte) + Reverse(low)[..|low| - 8]) == low[8..] + byte
  {
  }

  /** The reflected table drivers simulate the bitwise divisions on the mirrored register. */
  lemma {:induction false} ReflectedRunMirrors(n: nat, s: Word, bytes: seq<Byte>, p: Word)
    requires 8 <= n <= |s| == |p| && CleanAbove(n, s) && DivisorCancels(n, p)
    ensures TableRun(n, s, bytes, p, true)[..n] ==
            Reverse(Feed(n, Reverse(s[..n]), InputBits(bytes, true), p[..n]))
    ensures AugTableRun(n, s, bytes, p, true)[..n] ==
            Reverse(AugFeed(n, Reverse(s[..n]), InputBits(bytes, true), p[..n]))
    ensures CleanAbove(n, TableRun(n, s, bytes, p, true)) && CleanAbove(n, AugTableRun(n, s, bytes, p, true))
  {
    var r := Reverse(s[..n]);
    if bytes == [] {
      ReverseTwice(s[..n]);
    } else {
      var front, last := bytes[..|bytes| - 1], bytes[|bytes| - 1];
      ReflectedRunMirrors(n, s, front, p);
      ReverseTwice(Feed(n, r, InputBits(front, true), p[..n]));
      ReverseTwice(AugFeed(n, r, InputBits(front, true), p[..n]));
      ReflectedByteMirrors(n, TableRun(n, s, front, p, true), last, p);
      AugReflectedByteMirrors(n, AugTableRun(n, s, front, p, true), last, p);
      FeedConcat(n, r, InputBits(front, true), last, p[..n]);
    }
  }

  lemma CleanRunMirrors(n: nat, s: Word, bytes: seq<Byte>, p: Word)
    requires 8 <= n <= |s| == |p|
    ensures CleanAbove(n, s) && DivisorCancels(n, p) ==>
      TableRun(n, s, bytes, p, true)[..n] == Reverse(Feed(n, Reverse(s[..n]), InputBits(bytes, true), p[..n]))
      && AugTableRun(n, s, bytes, p, true)[..n]
         == Reverse(AugFeed(n, Reverse(s[..n]), InputBits(bytes, true), p[..n]))
  {
    if CleanAbove(n, s) && DivisorCancels(n, p) {
      ReflectedRunMirrors(n, s, bytes, p);
    }
  }

  method ReflectedByte(order: nat, p: Word, oldRemainder: Word, byte: Byte, table: array<Word>)
    returns (remainder: Word)
    requires 8 <= order <= |oldRemainder| == |p| && IsTable(table[..], 8, order, p, true)
    ensures remainder == TableByte(order, oldRemainder, byte, p, true)
  {
    var index := Xor(oldRemainder[..8], byte);
    var product := Partial(table, index, order, p, true);
    remainder := Shr(oldRemainder, 8);
    remainder := Xor(remainder, product);
  }

  method ReflectedCrcUpdate(order: nat, p: Word, oldRemainder: Word, buffer: array<Byte>, start: nat, count: nat)
    returns (remainder: Word)
    requires 8 <= order <= |oldRemainder| == |p|
    requires start + count <= buffer.Length
    ensures remainder == TableRun(order, oldRemainder, buffer[start..start + count], p, true)
    ensures CleanAbove(order, oldRemainder) && DivisorCancels(order, p) ==>
      remainder[..order] == Reverse(Feed(order, Reverse(oldRemainder[..order]),
                                         InputBits(buffer[start..start + count], true), p[..order]))
  {
    var table := MakePartialXorProductsTable(8, order, p, true);
    ghost var bytes := buffer[start..start + count];
    remainder := oldRemainder;
    var k := 0;
    while k < count
      invariant IsTable(table[..], 8, order, p, true)
      invariant k <= count && |remainder| == |p|
      invariant remainder == TableRun(order, oldRemainder, bytes[..k], p, true)
    {
      NextTableByte(order, oldRemainder, bytes, k, p, true);
      remainder := ReflectedByte(order, p, remainder, buffer[start + k], table);
      k := k + 1;
    }
    assert bytes[..count] == bytes;
    CleanRunMirrors(order, oldRemainder, bytes, p);
  }

  method ReflectedAugmentedByte(order: nat, p: Word, oldRemainder: Word, byte: Byte, table: array<Word>)
    returns (remainder: Word)
    requires 8 <= order <= |oldRemainder| == |p| && IsTable(table[..], 8, order, p, true)
    ensures remainder == AugTableByte(order, oldRemainder, byte, p, true)
  {
    var index := oldRemainder[..8];
    var product := Partial(table, index, order, p, true);
    remainder := Shr(oldRemainder, 8);
    remainder := Or(remainder, Shl(Resize(byte, |oldRemainder|), order - 8));
    remainder := Xor(remainder, product);
  }

  method ReflectedAugmentedCrcUpdate(order: nat, p: Word, oldRemainder: Word, buffer: array<Byte>, start: nat,
                                     count: nat)
    returns (remainder: Word)
    requires 8 <= order <= |oldRemainder| == |p|
    requires start + count <= buffer.Length
    ensures remainder == AugTableRun(order, oldRemainder, buffer[start..start + count], p, true)
    ensures CleanAbove(order, oldRemainder) && DivisorCancels(order, p) ==>
      remainder[..order] == Reverse(AugFeed(order, Reverse(oldRemainder[..order]),
                                            InputBits(buffer[start..start + count], true), p[..order]))
  {
    var table := MakePartialXorProductsTable(8, order, p, true);
    ghost var bytes := buffer[start..start + count];
    remainder := oldRemainder;
    var k := 0;
    while k < count
      invariant IsTable(table[..], 8, order, p, true)
      invariant k <= count && |remainder| == |p|
      invariant remainder == AugTableRun(order, oldRemainder, bytes[..k], p, true)
    {
      NextTableByte(order, oldRemainder, bytes, k, p, true);
      remainder := ReflectedAugmentedByte(order, p, remainder, buffer[start + k], table);
      k := k + 1;
    }
    assert bytes[..count] == bytes;
    CleanRunMirrors(order, oldRemainder, bytes, p);
  }

  // ----- Sub-byte drivers: no table, the division runs on each byte

  /** The next byte of a buffer extends the division of the bytes before it. */
  lemma NextDividedByte(n: nat, r: Word, bytes: seq<Byte>, k: nat, reflect: bool, p: Word)
    requires 0 < n <= |r| == |p| && k < |bytes|
    ensures Feed(n, r, InputBits(bytes[..k + 1], reflect), p)
         == Feed(n, Feed(n, r, InputBits(bytes[..k], reflect), p), InOrder(bytes[k], reflect), p)
    ensures AugFeed(n, r, InputBits(bytes[..k + 1], reflect), p)
         == AugFeed(n, AugFeed(n, r, InputBits(bytes[..k], reflect), p), InOrder(bytes[k], reflect), p)
  {
    assert bytes[..k + 1][..k] == bytes[..k];
    FeedConcat(n, r, InputBits(bytes[..k], reflect), InOrder(bytes[k], reflect), p);
  }

  method BytesByDivision(order: nat, p: Word, oldRemainder: Word, buffer: array<Byte>, start: nat, count: nat,
                         reflect: bool)
    returns (remainder: Word)
    requires 0 < order <= |oldRemainder| == |p|
    requires start + count <= buffer.Length
    ensures remainder == Feed(order, oldRemainder, InputBits(buffer[start..start + count], reflect), p)
  {
    ghost var bytes := buffer[start..start + count];
    remainder := oldRemainder;
    var k := 0;
    while k < count
      invariant k <= count && |remainder| == |p|
      invariant remainder == Feed(order, oldRemainder, InputBits(bytes[..k], reflect), p)
    {
      remainder := CrcModuloWordUpdate(order, remainder, buffer[start + k], p, 8, reflect);
      assert bytes[k][..8] == bytes[k];
      NextDividedByte(order, oldRemainder, bytes, k, reflect, p);
      k := k + 1;
    }
    assert bytes[..count] == bytes;
  }

  method BytesByAugmentedDivision(order: nat, p: Word, oldRemainder: Word, buffer: array<Byte>, start: nat,
                                  count: nat, reflect: bool)
    returns (remainder: Word)
    requires 0 < order <= |oldRemainder| == |p|
    requires start + count <= buffer.Length
    ensures remainder == AugFeed(order, oldRemainder, InputBits(buffer[start..start + count], reflect), p)
  {
    ghost var bytes := buffer[start..start + count];
    remainder := oldRemainder;
    var k := 0;
    while k < count
      invariant k <= count && |remainder| == |p|
      invariant remainder == AugFeed(order, oldRemainder, InputBits(bytes[..k], reflect), p)
    {
      remainder := AugmentedCrcModuloWordUpdate(order, remainder, buffer[start + k], p, 8, reflect);
      assert bytes[k][..8] == bytes[k];
      NextDividedByte(order, oldRemainder, bytes, k, reflect, p);
      k := k + 1;
    }
    assert bytes[..count] == bytes;
  }

  method ReflectRegister(x: Word, n: nat) returns (y: Word)
    requires 0 < n <= 8 <= |x|
    ensures y == SubByteReflected(x, n)
  {
    var low := ReflectSubByte(Resize(x, 8), n);
    y := Resize(low, |x|);
    assert low == low[..n] + low[n..];
    assert x[..8][..n] == x[..n];
  }

  lemma SubByteRunMirrors(n: nat, s: Word, bits: Word, p: Word)
    requires 0 < n <= |s| == |p|
    ensures SubByteReflected(Feed(n, SubByteReflected(s, n), bits, p), n)[..n]
         == Reverse(Feed(n, Reverse(s[..n]), bits, p[..n]))
    ensures SubByteReflected(AugFeed(n, SubByteReflected(s, n), bits, p), n)[..n]
         == Reverse(AugFeed(n, Reverse(s[..n]), bits, p[..n]))
  {
    FeedLow(n, SubByteReflected(s, n), bits, p);
    assert SubByteReflected(s, n)[..n] == Reverse(s[..n]);
  }

  /** The sub-byte drivers; the reflected one mirrors the register before and after the run. */
  method SubByteCrcUpdate(order: nat, p: Word, oldRemainder: Word, buffer: array<Byte>, start: nat, count: nat,
                          reflect: bool)
    returns (remainder: Word)
    requires 0 < order < 8 <= |oldRemainder| == |p|
    requires start + count <= buffer.Length
    ensures var bits := InputBits(buffer[start..start + count], reflect);
            remainder ==
            if reflect then SubByteReflected(Feed(order, SubByteReflected(oldRemainder, order), bits, p), order)
            else Feed(order, oldRemainder, bits, p)
  {
    remainder := oldRemainder;
    if reflect {
      remainder := ReflectRegister(remainder, order);
    }
    remainder := BytesByDivision(order, p, remainder, buffer, start, count, reflect);
    if reflect {
      remainder := ReflectRegister(remainder, order);
    }
  }

  method SubByteAugmentedCrcUpdate(order: nat, p: Word, oldRemainder: Word, buffer: array<Byte>, start: nat,
                                   count: nat, reflect: bool)
    returns (remainder: Word)
    requires 0 < order < 8 <= |oldRemainder| == |p|
    requires start + count <= buffer.Length
    ensures |remainder| == |p|
    ensures var bits := InputBits(buffer[start..start + count], reflect);
            remainder[..order] ==
            if reflect then Reverse(AugFeed(order, Reverse(oldRemainder[..order]), bits, p[..order]))
            else AugFeed(order, oldRemainder[..order], bits, p[..order])
  {
    remainder := oldRemainder;
    if reflect {
      remainder := ReflectRegister(remainder, order);
    }
    remainder := BytesByAugmentedDivision(order, p, remainder, buffer, start, count, reflect);
    if reflect {
      remainder := ReflectRegister(remainder, order);
    }
    ghost var bits := InputBits(buffer[start..start + count], reflect);
    SubByteRunMirrors(order, oldRemainder, bits, p);
    FeedLow(order, oldRemainder, bits, p);
  }

  // ----- The table by augmented division

  /** The effect of a unit under augmented division: placed just below the order of an otherwise empty
      register, it is pushed out by as many zeros. */
  function AugEntry(n: nat, unit: Word, p: Word, reflect: bool): (r: Word)
    requires 0 < n <= |p| && |unit| <= n
    ensures |r| == |p|
  {
    var product := AugFeed(n, Placed(n, |p|, InOrder(unit, reflect)), Zeros(|unit|), p);
    if reflect then ReflectLow(product, n) else product
  }

  /** The mask table built with unaugmented division is the one that augmented division would build:
      every slot, plain and mirrored, at every register width, the bits above the order included. */
  lemma TableByEitherDivision(n: nat, unit: Word, p: Word, reflect: bool)
    requires 0 < n <= |p| && |unit| <= n
    ensures Entry(n, unit, p, reflect) == AugEntry(n, unit, p, reflect)
  {
    var bits := InOrder(unit, reflect);
    var placed := Placed(n, |p|, bits);
    XorZeros(placed);
    FeedAbsorbs(n, Zeros(|p|), bits, p);
    ZeroInputSame(n, placed, |unit|, p);
  }

  // ----- What the reflected drivers need of a wide register

  /** The unit whose only quotient bit is the last: its table entry is the divisor itself, mirrored
      below the order, and above it the divisor against the shifted quotient bit. */
  lemma LastUnitEntry(n: nat, p: Word) returns (i: nat)
    requires 8 <= n <= |p| && !DivisorCancels(n, p)
    ensures Entry(n, OneHot(8, 7), p, true)[..n] == Reverse(p[..n])
    ensures n <= i < |p| && Entry(n, OneHot(8, 7), p, true)[i]
  {
    var product := Step(n, Zeros(|p|), true, p);
    LastUnitProduct(n, p);
    i :| n <= i < |p| && p[i] != (i == n);
    QuotientFromZero(n, p, i);
    assert ReflectLow(product, n)[i] == product[i];
  }

  lemma LastUnitProduct(n: nat, p: Word)
    requires 8 <= n <= |p|
    ensures Feed(n, Zeros(|p|), OneHot(8, 7), p) == Step(n, Zeros(|p|), true, p)
  {
    var last := Zeros(7) + [true];
    assert OneHot(8, 7) == last;
    assert last[..7] == Zeros(7);
    ZerosStay(|p|, n, 7, p);
  }

  /** A quotient bit from an empty register leaves the divisor, against the bit that was shifted to the
      order. */
  lemma QuotientFromZero(n: nat, p: Word, i: nat)
    requires 0 < n <= i < |p|
    ensures Step(n, Zeros(|p|), true, p)[..n] == p[..n]
    ensures Step(n, Zeros(|p|), true, p)[i] == (p[i] != (i == n))
  {
    assert StepBit(n, Zeros(|p|), true, p, i) == (p[i] != (i == n));
  }

  /** A run that starts with a given byte. */
  lemma FirstByte(n: nat, s: Word, byte: Byte, rest: seq<Byte>, p: Word)
    requires 8 <= n <= |s| == |p|
    ensures TableRun(n, s, [byte] + rest, p, true) == TableRun(n, TableByte(n, s, byte, p, true), rest, p, true)
    ensures AugTableRun(n, s, [byte] + rest, p, true)
         == AugTableRun(n, AugTableByte(n, s, byte, p, true), rest, p, true)
  {
    TableRunConcat(n, s, [byte], rest, p, true);
    assert [byte][..0] == [];
    assert TableRun(n, s, [byte], p, true) == TableByte(n, TableRun(n, s, [], p, true), byte, p, true);
    assert AugTableRun(n, s, [byte], p, true) == AugTableByte(n, AugTableRun(n, s, [], p, true), byte, p, true);
  }

  lemma FirstByteBits(n: nat, r: Word, byte: Byte, rest: seq<Byte>, p: Word)
    requires 0 < n == |r| == |p|
    ensures Feed(n, r, InputBits([byte] + rest, true), p) == Feed(n, Feed(n, r, byte, p), InputBits(rest, true), p)
    ensures AugFeed(n, r, InputBits([byte] + rest, true), p)
         == AugFeed(n, AugFeed(n, r, byte, p), InputBits(rest, true), p)
  {
    InputBitsConcat([byte], rest, true);
    OneByteBits(byte);
    FeedConcat(n, r, byte, InputBits(rest, true), p);
  }

  lemma OneByteBits(byte: Byte)
    ensures InputBits([byte], true) == byte
  {
    assert [byte][..0] == [];
    assert InputBits([byte], true) == [] + byte;
  }

  /** The reflected augmented driver ran the byte run as the mirrored bitwise division does. */
  ghost predicate AugMirrors(n: nat, s: Word, bytes: seq<Byte>, p: Word)
    requires 8 <= n <= |s| == |p|
  {
    AugTableRun(n, s, bytes, p, true)[..n] ==
    Reverse(AugFeed(n, Reverse(s[..n]), InputBits(bytes, true), p[..n]))
  }

  /** A run that is right so far stays right exactly if it is right from where it has come to. */
  lemma AugMirrorsFrom(n: nat, s: Word, a: seq<Byte>, b: seq<Byte>, p: Word)
    requires 8 <= n <= |s| == |p| && AugMirrors(n, s, a, p)
    ensures AugMirrors(n, s, a + b, p) <==> AugMirrors(n, AugTableRun(n, s, a, p, true), b, p)
  {
    var r := Reverse(s[..n]);
    TableRunConcat(n, s, a, b, p, true);
    InputBitsConcat(a, b, true);
    FeedConcat(n, r, InputBits(a, true), InputBits(b, true), p[..n]);
    ReverseTwice(AugFeed(n, r, InputBits(a, true), p[..n]));
  }

  lemma OneAugByte(n: nat, s: Word, byte: Byte, p: Word)
    requires 8 <= n <= |s| == |p|
    ensures AugTableRun(n, s, [byte], p, true) == AugTableByte(n, s, byte, p, true)
    ensures AugMirrors(n, s, [byte], p)
       <==> AugTableByte(n, s, byte, p, true)[..n] == Reverse(AugFeed(n, Reverse(s[..n]), byte, p[..n]))
  {
    OneByteBits(byte);
    assert [byte][..0] == [];
    assert AugTableRun(n, s, [], p, true) == s;
  }

  lemma NoByteMerged(n: nat, s: Word)
    requires 8 <= n <= |s|
    ensures Or(Shr(s, 8), Shl(Resize(Zeros(8), |s|), n - 8)) == Shr(s, 8)
  {
  }

  lemma ZeroByteLow(n: nat, s: Word, p: Word)
    requires 8 <= n <= |s| == |p|
    ensures AugTableByte(n, s, Zeros(8), p, true)[..n] == Xor(Shr(s, 8)[..n], Entry(n, s[..8], p, true)[..n])
  {
    NoByteMerged(n, s);
    XorPrefix(Shr(s, 8), Entry(n, s[..8], p, true), n);
  }

  /** A register and its cleaned form differ below the order after a shift if a bit comes down. */
  lemma CleanedDiffers(n: nat, s: Word, i: nat)
    requires 8 <= n <= i < |s| && i < n + 8 && s[i]
    ensures var clean := s[..n] + Zeros(|s| - n);
            && clean[..n] == s[..n] && clean[..8] == s[..8] && CleanAbove(n, clean)
            && Shr(s, 8)[..n] != Shr(clean, 8)[..n]
  {
    var clean := s[..n] + Zeros(|s| - n);
    assert clean[..8] == s[..8];
    assert Shr(s, 8)[..n][i - 8] == s[i] && Shr(clean, 8)[..n][i - 8] == clean[i];
  }

  /** A zero byte tells whether anything lies in the eight places above the order: it would be shifted
      into the remainder. */
  lemma ZeroByteTells(n: nat, s: Word, i: nat, p: Word)
    requires 8 <= n <= i < |s| == |p| && i < n + 8 && s[i]
    ensures !AugMirrors(n, s, [Zeros(8)], p)
  {
    var clean := s[..n] + Zeros(|s| - n);
    CleanedDiffers(n, s, i);
    AugReflectedByteMirrors(n, clean, Zeros(8), p);
    ZeroByteLow(n, s, p);
    ZeroByteLow(n, clean, p);
    XorSeparates(Shr(s, 8)[..n], Shr(clean, 8)[..n], Entry(n, s[..8], p, true)[..n]);
    OneAugByte(n, s, Zeros(8), p);
  }

  lemma EmptyUnitEntry(n: nat, p: Word)
    requires 8 <= n <= |p|
    ensures Entry(n, Zeros(8), p, true) == Zeros(|p|)
  {
    ZerosStay(|p|, n, 8, p);
    assert Reverse(Zeros(|p|)[..n]) + Zeros(|p|)[n..] == Zeros(|p|);
  }

  /** A bit further up comes down by eight places with a zero byte, if the entry that is met does not
      reach above the order. */
  lemma StrayBitComesDown(n: nat, s: Word, i: nat, p: Word)
    requires 8 <= n && n + 8 <= i < |s| == |p| && s[i]
    requires s[..n] == Zeros(n) || DivisorCancels(n, p)
    ensures AugTableByte(n, s, Zeros(8), p, true)[i - 8]
  {
    var entry := Entry(n, s[..8], p, true);
    if s[..n] == Zeros(n) {
      assert s[..8] == s[..n][..8] == Zeros(8);
      EmptyUnitEntry(n, p);
    } else {
      EntryStaysClean(n, s[..8], p);
      assert entry[i - 8] == entry[n..][i - 8 - n];
    }
    NoByteMerged(n, s);
    assert Shr(s, 8)[i - 8] == s[i];
  }

  lemma ZeroStaysZero(n: nat, s: Word, p: Word)
    requires 8 <= n <= |s| == |p| && s[..n] == Zeros(n) && AugMirrors(n, s, [Zeros(8)], p)
    ensures AugTableByte(n, s, Zeros(8), p, true)[..n] == Zeros(n)
  {
    OneAugByte(n, s, Zeros(8), p);
    ZeroInputSame(n, Zeros(n), 8, p[..n]);
    ZerosStay(n, n, 8, p[..n]);
    assert Reverse(Zeros(n)) == Zeros(n);
  }

  /** Zero bytes bring a stray bit down into the remainder. */
  lemma AugStrayBitFalls(n: nat, s: Word, i: nat, p: Word) returns (bytes: seq<Byte>)
    requires 8 <= n <= i < |s| == |p| && s[i]
    requires s[..n] == Zeros(n) || DivisorCancels(n, p)
    ensures !AugMirrors(n, s, bytes, p)
    decreases i
  {
    bytes := [Zeros(8)];
    if AugMirrors(n, s, bytes, p) {
      if i < n + 8 {
        ZeroByteTells(n, s, i, p);
      }
      OneAugByte(n, s, Zeros(8), p);
      StrayBitComesDown(n, s, i, p);
      if s[..n] == Zeros(n) {
        ZeroStaysZero(n, s, p);
      }
      var rest := AugStrayBitFalls(n, AugTableByte(n, s, Zeros(8), p, true), i - 8, p);
      AugMirrorsFrom(n, s, bytes, rest, p);
      bytes := bytes + rest;
    }
  }

  /** From every register, some byte run brings the bitwise division to zero. */
  lemma SteerToZero(n: nat, r: Word, p: Word) returns (bytes: seq<Byte>)
    requires 0 < n == |r| == |p|
    ensures AugFeed(n, r, InputBits(bytes, true), p) == Zeros(n)
  {
    var before := AugFeed(n, r, Zeros(7 * n), p);
    var word := AugFeed(n, before, Zeros(n), p);
    var bits := Zeros(7 * n) + Reverse(word);
    bytes := Packed(bits, true);
    PackedBits(bits, true);
    FeedConcat(n, r, Zeros(7 * n), Reverse(word), p);
    AugFeedAdds(n, before, word, p);
    XorCancel(word, word);
  }

  /** The register of the given width whose last bits below the order are the given ones. */
  function Loaded(n: nat, width: nat, bits: Word): (r: Word)
    requires |bits| <= n <= width
    ensures |r| == width
  {
    Zeros(n - |bits|) + bits + Zeros(width - n)
  }

  /** As long as only zeros leave it, an empty register is filled with the bytes as they come. */
  lemma {:induction false} AugRunStores(n: nat, bits: Word, p: Word)
    requires 8 <= n <= |p| && |bits| % 8 == 0 && |bits| <= n
    ensures AugTableRun(n, Zeros(|p|), Packed(bits, true), p, true) == Loaded(n, |p|, bits)
  {
    if bits == [] {
      assert Loaded(n, |p|, []) == Zeros(|p|);
    } else {
      var front, last := bits[..|bits| - 8], bits[|bits| - 8..];
      assert bits == front + last;
      AugRunStores(n, front, p);
      PackedLast(bits);
      ByteStored(n, front, last, p);
    }
  }

  lemma ByteStored(n: nat, front: Word, last: Byte, p: Word)
    requires 8 <= n <= |p| && |front| + 8 <= n
    ensures AugTableByte(n, Loaded(n, |p|, front), last, p, true) == Loaded(n, |p|, front + last)
  {
    assert Loaded(n, |p|, front)[..8] == Zeros(8);
    EmptyUnitEntry(n, p);
    ByteMerged(n, front, last, |p|);
    XorZeros(Loaded(n, |p|, front + last));
  }

  lemma ByteMerged(n: nat, front: Word, last: Byte, width: nat)
    requires |front| + 8 <= n <= width
    ensures Or(Shr(Loaded(n, width, front), 8), Shl(Resize(last, width), n - 8)) == Loaded(n, width, front + last)
  {
  }

  lemma PackedLast(bits: Word)
    requires |bits| % 8 == 0 && bits != []
    ensures var bytes, k := Packed(bits, true), |bits| - 8;
            bytes != [] && bytes[|bytes| - 1] == bits[k..] && bytes[..|bytes| - 1] == Packed(bits[..k], true)
  {
  }

  /** A byte run after which a register that is zero goes wrong, when the divisor does not cancel. It is
      loaded so that the next byte meets the unit whose entry is the divisor itself, and that byte and
      the rest of the register cancel what the entry has below the order. */
  lemma AugFailsFromZero(n: nat, p: Word) returns (bytes: seq<Byte>)
    requires 8 <= n <= |p| && !DivisorCancels(n, p)
    ensures !AugMirrors(n, Zeros(|p|), bytes, p)
  {
    var load := MeetingIsLoaded(n, |p|, Reverse(p[..n]));
    AugRunStores(n, load, p);
    bytes := Packed(load, true);
    if AugMirrors(n, Zeros(|p|), bytes, p) {
      var rest := AugFailsMeeting(n, p);
      AugMirrorsFrom(n, Zeros(|p|), bytes, rest, p);
      bytes := bytes + rest;
    }
  }

  lemma AugFailsMeeting(n: nat, p: Word) returns (bytes: seq<Byte>)
    requires 8 <= n <= |p| && !DivisorCancels(n, p)
    ensures !AugMirrors(n, Meeting(n, |p|, Reverse(p[..n])), bytes, p)
  {
    var s := Meeting(n, |p|, Reverse(p[..n]));
    var byte: Byte := Reverse(p[..n])[n - 8..];
    var i := CancelledBelow(n, s, byte, p);
    var rest := AugStrayBitFalls(n, AugTableRun(n, s, [byte], p, true), i, p);
    AugMirrorsFrom(n, s, [byte], rest, p);
    bytes := [byte] + rest;
  }

  /** The register that is about to meet the unit 0x80 and to hold the given word, without its last
      byte, after the shift. */
  function Meeting(n: nat, width: nat, word: Word): (s: Word)
    requires 8 <= n == |word| <= width
    ensures |s| == width
  {
    OneHot(8, 7) + word[..n - 8] + Zeros(width - n)
  }

  lemma MeetingIsLoaded(n: nat, width: nat, word: Word) returns (load: Word)
    requires 8 <= n == |word| <= width
    ensures |load| % 8 == 0 && |load| <= n && Loaded(n, width, load) == Meeting(n, width, word)
  {
    load := Meeting(n, width, word)[n % 8..n];
  }

  lemma MeetingByte(n: nat, width: nat, word: Word, byte: Byte)
    requires 8 <= n == |word| <= width && byte == word[n - 8..]
    ensures var s := Meeting(n, width, word);
            && s[..8] == OneHot(8, 7) && CleanAbove(n, s)
            && Or(Shr(s, 8), Shl(Resize(byte, width), n - 8))[..n] == word
            && Or(Shr(s, 8), Shl(Resize(byte, width), n - 8))[n..] == Zeros(width - n)
  {
  }

  lemma CancelledBelow(n: nat, s: Word, byte: Byte, p: Word) returns (i: nat)
    requires 8 <= n <= |s| == |p| && !DivisorCancels(n, p)
    requires s == Meeting(n, |p|, Reverse(p[..n])) && byte == Reverse(p[..n])[n - 8..]
    ensures AugMirrors(n, s, [byte], p)
    ensures var next := AugTableRun(n, s, [byte], p, true);
            next[..n] == Zeros(n) && n <= i < |s| && next[i]
  {
    var mirrored, entry := Reverse(p[..n]), Entry(n, OneHot(8, 7), p, true);
    i := LastUnitEntry(n, p);
    MeetingByte(n, |p|, mirrored, byte);
    AugReflectedByteMirrors(n, s, byte, p);
    OneAugByte(n, s, byte, p);
    var merged := Or(Shr(s, 8), Shl(Resize(byte, |s|), n - 8));
    XorPrefix(merged, entry, n);
    XorCancel(mirrored, mirrored);
    StrayRemains(n, merged, entry, i);
  }

  lemma StrayRemains(n: nat, a: Word, b: Word, i: nat)
    requires n <= i < |a| == |b| && CleanAbove(n, a) && b[i]
    ensures Xor(a, b)[i]
  {
    assert a[i] == a[n..][i - n];
  }

  lemma AugReflectedFails(n: nat, s: Word, p: Word) returns (bytes: seq<Byte>)
    requires 8 <= n <= |s| == |p| && !(CleanAbove(n, s) && DivisorCancels(n, p))
    ensures !AugMirrors(n, s, bytes, p)
  {
    if DivisorCancels(n, p) {
      var i := StrayBit(n, s);
      bytes := AugStrayBitFalls(n, s, i, p);
    } else {
      bytes := SteerToZero(n, Reverse(s[..n]), p[..n]);
      if AugMirrors(n, s, bytes, p) {
        var z := AugTableRun(n, s, bytes, p, true);
        assert z[..n] == Zeros(n);
        var rest: seq<Byte>;
        if CleanAbove(n, z) {
          assert z == z[..n] + z[n..] == Zeros(|p|);
          rest := AugFailsFromZero(n, p);
        } else {
          var i := StrayBit(n, z);
          rest := AugStrayBitFalls(n, z, i, p);
        }
        AugMirrorsFrom(n, s, bytes, rest, p);
        bytes := bytes + rest;
      }
    }
  }

  lemma StrayBit(n: nat, s: Word) returns (i: nat)
    requires n <= |s| && !CleanAbove(n, s)
    ensures n <= i < |s| && s[i]
  {
    var k :| 0 <= k < |s| - n && s[n..][k];
    i := n + k;
  }

  /** For every register and divisor: the reflected augmented driver is right for every byte run if and
      only if nothing lies above the order in the register, and the register is as wide as the order or
      the divisor cancels the bit at the order. */
  lemma AugReflectedMirrorsIffCancels(n: nat, s: Word, p: Word)
    requires 8 <= n <= |s| == |p|
    ensures CleanAbove(n, s) && DivisorCancels(n, p) <==> forall bytes: seq<Byte> :: AugMirrors(n, s, bytes, p)
  {
    if CleanAbove(n, s) && DivisorCancels(n, p) {
      forall bytes: seq<Byte> ensures AugMirrors(n, s, bytes, p) {
        ReflectedRunMirrors(n, s, bytes, p);
      }
    } else {
      var bytes := AugReflectedFails(n, s, p);
    }
  }
}
