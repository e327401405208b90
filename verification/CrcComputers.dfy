/** The two stateful checksum computers over the same five parameters: `crc_basic`, which divides bit
    by bit, and `crc_optimal`, which runs the byte-fed drivers. */
module CrcComputers {
  import opened Words
  import opened Reflection
  import opened ModuloDivision
  import opened CrcDrivers
  import opened Polynomials
  import opened ErrorDetection
  import opened StrayBits

  /** All words have the register's width, which may exceed the order. */
  datatype Parameters = Parameters(order: nat, poly: Word, init: Word, finalXor: Word,
                                   reflectIn: bool, reflectRem: bool)
  {
    predicate Valid() {
      0 < order <= |poly| && 8 <= |poly| && |init| == |poly| && |finalXor| == |poly|
    }
  }

  /** Output masking: the bits at and above the order are cleared. */
  function Masked(x: Word, n: nat): Word
    requires n <= |x|
  {
    x[..n] + Zeros(|x| - n)
  }

  /** The checksum that belongs to a remainder of the order's width. */
  function ChecksumOf(par: Parameters, r: Word): Word
    requires par.Valid() && |r| == par.order
  {
    Xor(if par.reflectRem then Reverse(r) else r, par.finalXor[..par.order]) + Zeros(|par.poly| - par.order)
  }

  /** The remainder after a byte run, computed bit by bit on a register of the order's width. */
  function Remainder(par: Parameters, init: Word, bytes: seq<Byte>): (r: Word)
    requires par.Valid() && |init| == |par.poly|
    ensures |r| == par.order
  {
    Feed(par.order, init[..par.order], InputBits(bytes, par.reflectIn), par.poly[..par.order])
  }

  // ----- The state of crc_basic

  function BasicRun(par: Parameters, rem: Word, bytes: seq<Byte>): (rem': Word)
    requires par.Valid() && |rem| == |par.poly|
    ensures |rem'| == |rem|
  {
    Feed(par.order, rem, InputBits(bytes, par.reflectIn), par.poly)
  }

  function BasicChecksum(par: Parameters, rem: Word): Word
    requires par.Valid() && |rem| == |par.poly|
  {
    Masked(Xor(if par.reflectRem then ReflectLow(rem, par.order) else rem, par.finalXor), par.order)
  }

  /** The checksum of a whole message. */
  function BasicCrc(par: Parameters, init: Word, bytes: seq<Byte>): Word
    requires par.Valid() && |init| == |par.poly|
  {
    BasicChecksum(par, BasicRun(par, init, bytes))
  }

  // ----- The state of crc_optimal

  /** The mix-in reflector for the order: through bytes up to order 8, on the register above. */
  function Reflector(x: Word, n: nat): (y: Word)
    requires n <= |x|
    ensures |y| == |x| && y[..n] == Reverse(x[..n])
  {
    if n > 8 then ReflectLow(x, n) else SubByteReflected(x, n)
  }

  function OptimalStart(par: Parameters, rem: Word): (s: Word)
    requires par.Valid() && |rem| == |par.poly|
    ensures |s| == |rem|
  {
    if par.reflectIn then Reflector(rem, par.order) else rem
  }

  function OptimalInterim(par: Parameters, s: Word): (rem: Word)
    requires par.Valid() && |s| == |par.poly|
    ensures |rem| == |s|
  {
    Masked(if par.reflectIn then Reflector(s, par.order) else s, par.order)
  }

  function OptimalChecksum(par: Parameters, s: Word): Word
    requires par.Valid() && |s| == |par.poly|
  {
    Masked(Xor(if par.reflectRem != par.reflectIn then Reflector(s, par.order) else s, par.finalXor), par.order)
  }

  /** The state after a byte run of the driver that the order and the reflection select. */
  function OptimalRun(par: Parameters, s: Word, bytes: seq<Byte>): (s': Word)
    requires par.Valid() && |s| == |par.poly|
    ensures |s'| == |s|
  {
    var n, p, bits := par.order, par.poly, InputBits(bytes, par.reflectIn);
    if n >= 8 then TableRun(n, s, bytes, p, par.reflectIn)
    else if par.reflectIn then SubByteReflected(Feed(n, SubByteReflected(s, n), bits, p), n)
    else Feed(n, s, bits, p)
  }

  function OptimalCrc(par: Parameters, init: Word, bytes: seq<Byte>): Word
    requires par.Valid() && |init| == |par.poly|
  {
    OptimalChecksum(par, OptimalRun(par, OptimalStart(par, init), bytes))
  }

  /** s is the table-driven computer's form of the remainder r. */
  ghost predicate Tracks(par: Parameters, s: Word, r: Word)
    requires par.Valid()
  {
    && |s| == |par.poly|
    && |r| == par.order
    && s[..par.order] == (if par.reflectIn then Reverse(r) else r)
    && (par.reflectIn && par.order >= 8 ==> CleanAbove(par.order, s))
  }

  /** What reflected byte-wise input needs of a register that is wider than the order: the divisor has
      its leading term written out, and the start value has nothing above the order. (At order 8 the
      constructor clears the start value by passing it through a byte.) */
  ghost predicate Compatible(par: Parameters, init: Word)
    requires par.Valid() && |init| == |par.poly|
  {
    par.reflectIn && par.order >= 8 ==>
      DivisorCancels(par.order, par.poly) && (par.order == 8 || CleanAbove(par.order, init))
  }

  // ----- Both computers compute the remainder

  lemma BasicRunIsRemainder(par: Parameters, rem: Word, bytes: seq<Byte>)
    requires par.Valid() && |rem| == |par.poly|
    ensures BasicRun(par, rem, bytes)[..par.order] == Remainder(par, rem, bytes)
    ensures BasicCrc(par, rem, bytes) == ChecksumOf(par, Remainder(par, rem, bytes))
  {
    FeedLow(par.order, rem, InputBits(bytes, par.reflectIn), par.poly);
    BasicChecksumOf(par, BasicRun(par, rem, bytes));
  }

  /** The remainder is the one of the polynomial division of the message, for every parameter set, start
      value and message. */
  lemma RemainderIsPolynomialRemainder(par: Parameters, init: Word, bytes: seq<Byte>, r: Word)
    requires par.Valid() && |init| == |par.poly| && |r| == par.order
    ensures r == Remainder(par, init, bytes) <==>
            exists q :: |q| == |InputBits(bytes, par.reflectIn)| &&
              Dividend(init[..par.order], InputBits(bytes, par.reflectIn)) ==
              Recombined(q, r, par.poly[..par.order])
  {
    FeedIsTheRemainder(init[..par.order], InputBits(bytes, par.reflectIn), par.poly[..par.order], r);
  }

  lemma BasicChecksumOf(par: Parameters, rem: Word)
    requires par.Valid() && |rem| == |par.poly|
    ensures BasicChecksum(par, rem) == ChecksumOf(par, rem[..par.order])
  {
    var n := par.order;
    var x := if par.reflectRem then ReflectLow(rem, n) else rem;
    assert x[..n] == if par.reflectRem then Reverse(rem[..n]) else rem[..n];
    assert Xor(x, par.finalXor)[..n] == Xor(x[..n], par.finalXor[..n]);
  }

  /** Since reflected input leaves a reflected remainder, output reflection is needed exactly when the
      two flags differ. */
  lemma OptimalChecksumOf(par: Parameters, s: Word, r: Word)
    requires par.Valid() && |s| == |par.poly| && |r| == par.order
    requires s[..par.order] == if par.reflectIn then Reverse(r) else r
    ensures OptimalChecksum(par, s) == ChecksumOf(par, r)
  {
    var n := par.order;
    var x := if par.reflectRem != par.reflectIn then Reflector(s, n) else s;
    ReverseTwice(r);
    assert x[..n] == if par.reflectRem then Reverse(r) else r;
    assert Xor(x, par.finalXor)[..n] == Xor(x[..n], par.finalXor[..n]);
  }

  lemma OptimalStartTracks(par: Parameters, rem: Word)
    requires par.Valid() && |rem| == |par.poly| && Compatible(par, rem)
    ensures Tracks(par, OptimalStart(par, rem), rem[..par.order])
  {
    if par.reflectIn && par.order >= 8 {
      var s := OptimalStart(par, rem);
      assert s[par.order..] == if par.order > 8 then rem[par.order..] else Zeros(|rem| - par.order);
    }
  }

  lemma OptimalRunTracks(par: Parameters, s: Word, r: Word, bytes: seq<Byte>)
    requires par.Valid() && Tracks(par, s, r)
    requires par.reflectIn && par.order >= 8 ==> DivisorCancels(par.order, par.poly)
    ensures Tracks(par, OptimalRun(par, s, bytes),
                   Feed(par.order, r, InputBits(bytes, par.reflectIn), par.poly[..par.order]))
  {
    var n, p := par.order, par.poly;
    if par.reflectIn {
      ReverseTwice(r);
      if n < 8 {
        SubByteRunMirrors(n, s, InputBits(bytes, true), p);
      } else {
        ReflectedRunMirrors(n, s, bytes, p);
      }
    } else if n < 8 {
      FeedLow(n, s, InputBits(bytes, false), p);
    } else {
      DirectRunRefines(n, s, bytes, p);
    }
  }

  /** The table-driven computer returns the bitwise computer's checksum. */
  lemma OptimalAgrees(par: Parameters, init: Word, bytes: seq<Byte>)
    requires par.Valid() && |init| == |par.poly| && Compatible(par, init)
    ensures OptimalCrc(par, init, bytes) == BasicCrc(par, init, bytes)
  {
    var s := OptimalStart(par, init);
    OptimalStartTracks(par, init);
    OptimalRunTracks(par, s, init[..par.order], bytes);
    OptimalChecksumOf(par, OptimalRun(par, s, bytes), Remainder(par, init, bytes));
    BasicRunIsRemainder(par, init, bytes);
  }

  // ----- Why the condition is needed

  /** Equal checksums mean equal remainders. */
  lemma ChecksumTellsRemainder(par: Parameters, r: Word, r': Word)
    requires par.Valid() && |r| == |r'| == par.order && ChecksumOf(par, r) == ChecksumOf(par, r')
    ensures r == r'
  {
    var n := par.order;
    var a, b := if par.reflectRem then Reverse(r) else r, if par.reflectRem then Reverse(r') else r';
    forall i | 0 <= i < n ensures a[i] == b[i] {
      assert ChecksumOf(par, r)[i] == (a[i] != par.finalXor[..n][i]);
      assert ChecksumOf(par, r')[i] == (b[i] != par.finalXor[..n][i]);
    }
    assert a == b;
    ReverseTwice(r);
    ReverseTwice(r');
  }

  /** The reflected driver leaves the mirrored bitwise remainder after a byte run. */
  ghost predicate Mirrors(n: nat, s: Word, r: Word, bytes: seq<Byte>, p: Word)
    requires 8 <= n <= |s| == |p| && |r| == n
  {
    TableRun(n, s, bytes, p, true)[..n] == Reverse(Feed(n, r, InputBits(bytes, true), p[..n]))
  }

  /** A set bit above the order is shifted into the remainder after enough suitable bytes. */
  lemma StrayBitFalls(n: nat, s: Word, i: nat, p: Word) returns (bytes: seq<Byte>)
    requires 8 <= n <= i < |s| == |p| && s[i]
    ensures !Mirrors(n, s, Reverse(s[..n]), bytes, p)
    decreases i
  {
    var byte: Byte := s[..8];
    var r, next := Reverse(s[..n]), Shr(s, 8);
    var rest: seq<Byte> := [];
    QuietByte(n, s, p);
    var shifted := Shl(r, 8);
    if next[..n] == Reverse(shifted) {
      if i < n + 8 {
        BitCameDown(n, s, i);
      }
      ReverseTwice(shifted);
      rest := StrayBitFalls(n, next, i - 8, p);
    }
    bytes := [byte] + rest;
    FirstByte(n, s, byte, rest, p);
    FirstByteBits(n, r, byte, rest, p[..n]);
  }

  lemma BitCameDown(n: nat, s: Word, i: nat)
    requires 8 <= n <= i < |s| && i < n + 8 && s[i]
    ensures Shr(s, 8)[..n] != Reverse(Shl(Reverse(s[..n]), 8))
  {
    assert Shr(s, 8)[..n][i - 8] == s[i];
    assert !Reverse(Shl(Reverse(s[..n]), 8))[i - 8];
  }

  /** A byte equal to the one that leaves the register meets the empty partial product: both
      computations merely shift. */
  lemma QuietByte(n: nat, s: Word, p: Word)
    requires 8 <= n <= |s| == |p|
    ensures TableByte(n, s, s[..8], p, true) == Shr(s, 8)
    ensures Feed(n, Reverse(s[..n]), s[..8], p[..n]) == Shl(Reverse(s[..n]), 8)
  {
    var r := Reverse(s[..n]);
    assert Xor(s[..8], s[..8]) == Zeros(8);
    ZerosStay(|p|, n, 8, p);
    assert ReflectLow(Zeros(|p|), n) == Zeros(|p|);
    XorZeros(Shr(s, 8));
    FeedByTable(n, r, s[..8], p[..n]);
    assert Reverse(r[n - 8..]) == s[..8];
    ZerosStay(n, n, 8, p[..n]);
    XorZeros(Shl(r, 8));
  }

  /** When the divisor does not cancel the bit at n, the byte 0x80 read lowest bit first, brought to a
      clean register, leaves something above the order although the remainder is still right. */
  lemma DivisorLeavesStrayBit(n: nat, s: Word, p: Word) returns (byte: Byte, i: nat)
    requires 8 <= n <= |s| == |p| && CleanAbove(n, s) && !DivisorCancels(n, p)
    ensures n <= i < |s| && TableByte(n, s, byte, p, true)[i]
    ensures TableByte(n, s, byte, p, true)[..n] == Reverse(Feed(n, Reverse(s[..n]), byte, p[..n]))
  {
    var unit: Byte := OneHot(8, 7);
    byte := Xor(s[..8], unit);
    assert Xor(s[..8], byte) == unit;
    i := LastUnitEntry(n, p);
    CleanShift(n, s, 8);
    assert Shr(s, 8)[i] == Shr(s, 8)[n..][i - n];
    ReflectedByteMirrors(n, s, byte, p);
  }

  /** An incompatible register is found out by some message. */
  lemma IncompatibleFails(par: Parameters, init: Word) returns (bytes: seq<Byte>)
    requires par.Valid() && |init| == |par.poly| && !Compatible(par, init)
    ensures !Mirrors(par.order, OptimalStart(par, init), init[..par.order], bytes, par.poly)
  {
    var n, p, s := par.order, par.poly, OptimalStart(par, init);
    ReverseTwice(init[..n]);
    if CleanAbove(n, s) {
      var byte, i := DivisorLeavesStrayBit(n, s, p);
      var next := TableByte(n, s, byte, p, true);
      var rest := StrayBitFalls(n, next, i, p);
      bytes := [byte] + rest;
      ReverseTwice(Feed(n, init[..n], byte, p[..n]));
      FirstByte(n, s, byte, rest, p);
      FirstByteBits(n, init[..n], byte, rest, p[..n]);
    } else {
      var i :| n <= i < |s| && s[i];
      bytes := StrayBitFalls(n, s, i, p);
    }
  }

  /** For every parameter set and start value: the two computers return the same checksum for every
      message if and only if the register is compatible with reflected byte-wise input. In
      particular they always agree when input is not reflected, when the order is below 8, and when
      the register is exactly as wide as the order. */
  lemma ComputersAgreeIffCompatible(par: Parameters, init: Word)
    requires par.Valid() && |init| == |par.poly|
    ensures Compatible(par, init) <==>
            forall bytes: seq<Byte> :: OptimalCrc(par, init, bytes) == BasicCrc(par, init, bytes)
  {
    if Compatible(par, init) {
      forall bytes: seq<Byte>
        ensures OptimalCrc(par, init, bytes) == BasicCrc(par, init, bytes)
      {
        OptimalAgrees(par, init, bytes);
      }
    } else {
      var bytes := IncompatibleFails(par, init);
      var s := OptimalRun(par, OptimalStart(par, init), bytes);
      var r := Reverse(s[..par.order]);
      ReverseTwice(s[..par.order]);
      OptimalChecksumOf(par, s, r);
      BasicRunIsRemainder(par, init, bytes);
      if OptimalChecksum(par, s) == BasicCrc(par, init, bytes) {
        ChecksumTellsRemainder(par, r, Remainder(par, init, bytes));
      }
    }
  }

  /** What the table-driven computer returns for every parameter set and start value, compatible or not:
      the checksum of the remainder plus, for reflected byte-wise input, the augmented division of the
      stray bits that entered on the way. */
  lemma OptimalCrcOnAnyRegister(par: Parameters, init: Word, bytes: seq<Byte>)
    requires par.Valid() && |init| == |par.poly|
    ensures par.reflectIn && par.order >= 8 ==>
              var n, p := par.order, par.poly;
              var strays := Crossed(n, OptimalStart(par, init), bytes, p);
              OptimalCrc(par, init, bytes) ==
              ChecksumOf(par, Xor(Remainder(par, init, bytes),
                                  AugFeed(n, Zeros(n), InputBits(strays, true), p[..n])))
    ensures !(par.reflectIn && par.order >= 8) ==>
              OptimalCrc(par, init, bytes) == ChecksumOf(par, Remainder(par, init, bytes))
  {
    var n, p, s := par.order, par.poly, OptimalStart(par, init);
    if par.reflectIn && n >= 8 {
      ReverseTwice(init[..n]);
      RunOnAnyRegister(n, s, bytes, p);
      var strays := AugFeed(n, Zeros(n), InputBits(Crossed(n, s, bytes, p), true), p[..n]);
      OptimalChecksumOf(par, OptimalRun(par, s, bytes), Xor(Remainder(par, init, bytes), strays));
    } else {
      OptimalAgrees(par, init, bytes);
      BasicRunIsRemainder(par, init, bytes);
    }
  }

  /** A checksum bit by bit: the remainder's bit, or the one that mirrors it, against the mask's; nothing
      above the order. */
  lemma ChecksumBit(par: Parameters, init: Word, bytes: seq<Byte>, i: nat)
    requires par.Valid() && |init| == |par.poly| && i < |par.poly|
    ensures |BasicCrc(par, init, bytes)| == |par.poly|
    ensures BasicCrc(par, init, bytes)[i] ==
            (i < par.order &&
             Remainder(par, init, bytes)[if par.reflectRem then par.order - 1 - i else i] != par.finalXor[i])
  {
    BasicRunIsRemainder(par, init, bytes);
  }

  /** A register exactly as wide as the order is compatible with everything. */
  lemma ExactWidthIsCompatible(par: Parameters, init: Word)
    requires par.Valid() && |init| == |par.poly| == par.order
    ensures Compatible(par, init)
  {
  }

  /** A concrete failure: order 12 in the usual 16-bit register, the divisor 0x80F written as usual
      without its leading term, reflected input. Some message gets two different checksums. */
  lemma TwelveBitsInSixteenDisagree(par: Parameters)
    requires par.Valid() && par.order == 12 && par.reflectIn
    requires par.poly == [true, true, true, true] + Zeros(7) + [true] + Zeros(4)
    ensures exists bytes: seq<Byte> :: OptimalCrc(par, par.init, bytes) != BasicCrc(par, par.init, bytes)
  {
    assert par.poly[12..] == Zeros(4);
    assert !Zeros(4)[0] && OneHot(4, 0)[0];
    ComputersAgreeIffCompatible(par, par.init);
  }

  // ----- Bursts at the level of checksums

  /** Two messages whose bits differ only in a window of at most order bits. */
  ghost predicate Burst(par: Parameters, a: seq<Byte>, b: seq<Byte>) {
    DifferInWindow(par.order, InputBits(a, par.reflectIn), InputBits(b, par.reflectIn))
  }

  /** With a constant term in the divisor, two messages that differ only in a window of at most order
      bits never share a checksum, in either computer. */
  lemma ChecksumsSeeBurst(par: Parameters, init: Word, a: seq<Byte>, b: seq<Byte>)
    requires par.Valid() && |init| == |par.poly| && par.poly[0]
    requires Burst(par, a, b)
    ensures BasicCrc(par, init, a) != BasicCrc(par, init, b)
    ensures Compatible(par, init) ==> OptimalCrc(par, init, a) != OptimalCrc(par, init, b)
  {
    var n := par.order;
    BasicRunIsRemainder(par, init, a);
    BasicRunIsRemainder(par, init, b);
    BurstIsSeen(n, init[..n], InputBits(a, par.reflectIn), InputBits(b, par.reflectIn), par.poly[..n]);
    if BasicCrc(par, init, a) == BasicCrc(par, init, b) {
      ChecksumTellsRemainder(par, Remainder(par, init, a), Remainder(par, init, b));
    }
    if Compatible(par, init) {
      OptimalAgrees(par, init, a);
      OptimalAgrees(par, init, b);
    }
  }

  /** Without one, two byte runs that differ in such a window leave the same remainder: the bit-level
      pair filled up with zeros to whole bytes. */
  lemma BytesMissBurst(n: nat, r: Word, p: Word, reflect: bool) returns (a: seq<Byte>, b: seq<Byte>)
    requires 0 < n == |r| == |p| && !p[0]
    ensures DifferInWindow(n, InputBits(a, reflect), InputBits(b, reflect))
    ensures Feed(n, r, InputBits(a, reflect), p) == Feed(n, r, InputBits(b, reflect), p)
  {
    var m, m' := BurstIsMissed(n, r, p);
    var fill := Zeros(7 * |m|);
    WindowExtends(n, m, m', fill);
    a, b := Packed(m + fill, reflect), Packed(m' + fill, reflect);
    PackedBits(m + fill, reflect);
    PackedBits(m' + fill, reflect);
    FeedConcat(n, r, m, fill, p);
    FeedConcat(n, r, m', fill, p);
  }

  lemma ChecksumsMissBurst(par: Parameters, init: Word) returns (a: seq<Byte>, b: seq<Byte>)
    requires par.Valid() && |init| == |par.poly| && !par.poly[0]
    ensures Burst(par, a, b)
    ensures BasicCrc(par, init, a) == BasicCrc(par, init, b)
    ensures Compatible(par, init) ==> OptimalCrc(par, init, a) == OptimalCrc(par, init, b)
  {
    a, b := BytesMissBurst(par.order, init[..par.order], par.poly[..par.order], par.reflectIn);
    BasicRunIsRemainder(par, init, a);
    BasicRunIsRemainder(par, init, b);
    if Compatible(par, init) {
      OptimalAgrees(par, init, a);
      OptimalAgrees(par, init, b);
    }
  }

  /** For every parameter set and start value: the bitwise computer's checksum sees every burst of at
      most order bits if and only if the divisor has a constant term; on a compatible register so does
      the table-driven computer's. */
  lemma ChecksumsSeeBurstsIffConstantTerm(par: Parameters, init: Word)
    requires par.Valid() && |init| == |par.poly|
    ensures par.poly[0] <==> forall a: seq<Byte>, b: seq<Byte> :: Burst(par, a, b) ==>
                               BasicCrc(par, init, a) != BasicCrc(par, init, b)
    ensures Compatible(par, init) ==>
              (par.poly[0] <==> forall a: seq<Byte>, b: seq<Byte> :: Burst(par, a, b) ==>
                                  OptimalCrc(par, init, a) != OptimalCrc(par, init, b))
  {
    if par.poly[0] {
      forall a: seq<Byte>, b: seq<Byte> | Burst(par, a, b)
        ensures BasicCrc(par, init, a) != BasicCrc(par, init, b)
        ensures Compatible(par, init) ==> OptimalCrc(par, init, a) != OptimalCrc(par, init, b)
      {
        ChecksumsSeeBurst(par, init, a, b);
      }
    } else {
      var a, b := ChecksumsMissBurst(par, init);
    }
  }

  // ----- Stopping and resuming

  datatype Event = Input(bytes: seq<Byte>) | StopAndResume

  function BytesOf(event: Event): seq<Byte> {
    match event
    case Input(bytes) => bytes
    case StopAndResume => []
  }

  function AllBytes(events: seq<Event>): seq<Byte> {
    if events == [] then [] else AllBytes(events[..|events| - 1]) + BytesOf(events[|events| - 1])
  }

  /** Resuming: reset to the interim remainder that was read out. */
  function BasicEvent(par: Parameters, rem: Word, event: Event): (rem': Word)
    requires par.Valid() && |rem| == |par.poly|
    ensures |rem'| == |rem|
  {
    match event
    case Input(bytes) => BasicRun(par, rem, bytes)
    case StopAndResume => Masked(rem, par.order)
  }

  function OptimalEvent(par: Parameters, s: Word, event: Event): (s': Word)
    requires par.Valid() && |s| == |par.poly|
    ensures |s'| == |s|
  {
    match event
    case Input(bytes) => OptimalRun(par, s, bytes)
    case StopAndResume => OptimalStart(par, OptimalInterim(par, s))
  }

  function BasicSession(par: Parameters, rem: Word, events: seq<Event>): (rem': Word)
    requires par.Valid() && |rem| == |par.poly|
    ensures |rem'| == |rem|
  {
    if events == [] then rem
    else BasicEvent(par, BasicSession(par, rem, events[..|events| - 1]), events[|events| - 1])
  }

  function OptimalSession(par: Parameters, s: Word, events: seq<Event>): (s': Word)
    requires par.Valid() && |s| == |par.poly|
    ensures |s'| == |s|
  {
    if events == [] then s
    else OptimalEvent(par, OptimalSession(par, s, events[..|events| - 1]), events[|events| - 1])
  }

  /** Sessions compose, and one event is what the computer does then. */
  lemma SessionsCompose(par: Parameters, v: Word, a: seq<Event>, b: seq<Event>)
    requires par.Valid() && |v| == |par.poly|
    ensures AllBytes(a + b) == AllBytes(a) + AllBytes(b)
    ensures BasicSession(par, v, a + b) == BasicSession(par, BasicSession(par, v, a), b)
    ensures OptimalSession(par, v, a + b) == OptimalSession(par, OptimalSession(par, v, a), b)
  {
    BytesCompose(a, b);
    BasicSessionsCompose(par, v, a, b);
    OptimalSessionsCompose(par, v, a, b);
  }

  lemma {:induction false} BytesCompose(a: seq<Event>, b: seq<Event>)
    ensures AllBytes(a + b) == AllBytes(a) + AllBytes(b)
  {
    if b == [] {
      assert a + b == a;
    } else {
      assert (a + b)[..|a + b| - 1] == a + b[..|b| - 1];
      BytesCompose(a, b[..|b| - 1]);
    }
  }

  lemma {:induction false} BasicSessionsCompose(par: Parameters, v: Word, a: seq<Event>, b: seq<Event>)
    requires par.Valid() && |v| == |par.poly|
    ensures BasicSession(par, v, a + b) == BasicSession(par, BasicSession(par, v, a), b)
  {
    if b == [] {
      assert a + b == a;
    } else {
      assert (a + b)[..|a + b| - 1] == a + b[..|b| - 1];
      BasicSessionsCompose(par, v, a, b[..|b| - 1]);
    }
  }

  lemma {:induction false} OptimalSessionsCompose(par: Parameters, v: Word, a: seq<Event>, b: seq<Event>)
    requires par.Valid() && |v| == |par.poly|
    ensures OptimalSession(par, v, a + b) == OptimalSession(par, OptimalSession(par, v, a), b)
  {
    if b == [] {
      assert a + b == a;
    } else {
      assert (a + b)[..|a + b| - 1] == a + b[..|b| - 1];
      OptimalSessionsCompose(par, v, a, b[..|b| - 1]);
    }
  }

  lemma SessionOfOne(par: Parameters, v: Word, bytes: seq<Byte>)
    requires par.Valid() && |v| == |par.poly|
    ensures AllBytes([]) == [] && AllBytes([Input(bytes)]) == bytes && AllBytes([StopAndResume]) == []
    ensures BasicSession(par, v, []) == v == OptimalSession(par, v, [])
    ensures BasicSession(par, v, [Input(bytes)]) == BasicRun(par, v, bytes)
    ensures BasicSession(par, v, [StopAndResume]) == Masked(v, par.order)
    ensures OptimalSession(par, v, [Input(bytes)]) == OptimalRun(par, v, bytes)
    ensures OptimalSession(par, v, [StopAndResume]) == OptimalStart(par, OptimalInterim(par, v))
  {
    assert [Input(bytes)][..0] == [] && [StopAndResume][..0] == [];
    assert AllBytes([Input(bytes)]) == [] + bytes;
  }

  lemma RemainderResumes(par: Parameters, rem: Word, a: seq<Byte>, b: seq<Byte>)
    requires par.Valid() && |rem| == |par.poly|
    ensures Remainder(par, rem, a + b) ==
            Feed(par.order, Remainder(par, rem, a), InputBits(b, par.reflectIn), par.poly[..par.order])
  {
    InputBitsConcat(a, b, par.reflectIn);
    FeedConcat(par.order, rem[..par.order], InputBits(a, par.reflectIn), InputBits(b, par.reflectIn),
               par.poly[..par.order]);
  }

  lemma {:induction false} BasicSessionIsRemainder(par: Parameters, rem: Word, events: seq<Event>)
    requires par.Valid() && |rem| == |par.poly|
    ensures BasicSession(par, rem, events)[..par.order] == Remainder(par, rem, AllBytes(events))
  {
    if events != [] {
      var front, last := events[..|events| - 1], events[|events| - 1];
      BasicSessionIsRemainder(par, rem, front);
      RemainderResumes(par, rem, AllBytes(front), BytesOf(last));
      BasicRunIsRemainder(par, BasicSession(par, rem, front), BytesOf(last));
    }
  }

  /** What is read out is the remainder; what resuming installs still tracks it. */
  lemma ResumeTracks(par: Parameters, s: Word, r: Word)
    requires par.Valid() && Tracks(par, s, r)
    ensures OptimalInterim(par, s) == r + Zeros(|s| - par.order)
    ensures Tracks(par, OptimalStart(par, OptimalInterim(par, s)), r)
  {
    ReverseTwice(r);
    var interim := OptimalInterim(par, s);
    assert interim[..par.order] == r && interim[par.order..] == Zeros(|s| - par.order);
    var s' := OptimalStart(par, interim);
    assert par.reflectIn ==> s'[par.order..] == Zeros(|s| - par.order);
  }

  /** What either computer reads out after a reset is the low part of the given value, whatever the
      parameters and whatever lies above the order; so it is the given value exactly when nothing does. */
  lemma ResetReadsBackIffClean(par: Parameters, v: Word)
    requires par.Valid() && |v| == |par.poly|
    ensures OptimalInterim(par, OptimalStart(par, v)) == Masked(v, par.order) == BasicEvent(par, v, StopAndResume)
    ensures OptimalInterim(par, OptimalStart(par, v)) == v <==> CleanAbove(par.order, v)
    ensures BasicEvent(par, v, StopAndResume) == v <==> CleanAbove(par.order, v)
  {
    ReverseTwice(v[..par.order]);
    MaskKeepsIffClean(v, par.order);
  }

  lemma MaskKeepsIffClean(x: Word, n: nat)
    requires n <= |x|
    ensures Masked(x, n) == x <==> CleanAbove(n, x)
  {
    assert Masked(x, n)[n..] == Zeros(|x| - n);
    assert x == x[..n] + x[n..];
  }

  /** The checksum that a reset is documented to leave: nothing is masked. */
  function DocumentedResetChecksum(par: Parameters, v: Word): (c: Word)
    requires par.Valid() && |v| == |par.poly|
    ensures |c| == |v|
  {
    Xor(if par.reflectRem then ReflectLow(v, par.order) else v, par.finalXor)
  }

  /** Both computers return its low part, so they return it exactly when the given value and the final
      mask agree above the order. */
  lemma ResetChecksumIffMaskAgreesAbove(par: Parameters, v: Word)
    requires par.Valid() && |v| == |par.poly|
    ensures OptimalChecksum(par, OptimalStart(par, v)) == BasicChecksum(par, v)
    ensures BasicChecksum(par, v) == DocumentedResetChecksum(par, v) <==> v[par.order..] == par.finalXor[par.order..]
  {
    var n := par.order;
    var x := if par.reflectRem then ReflectLow(v, n) else v;
    ReverseTwice(v[..n]);
    OptimalChecksumOf(par, OptimalStart(par, v), v[..n]);
    BasicChecksumOf(par, v);
    MaskKeepsIffClean(Xor(x, par.finalXor), n);
    assert x[n..] == v[n..];
    XorPrefix(x, par.finalXor, n);
    XorCancel(v[n..], par.finalXor[n..]);
  }

  /** In every register wider than the order, the lone bit at the order is a value that both computers
      lose: they read out zero. */
  lemma ResetLosesLoneBit(par: Parameters)
    requires par.Valid() && par.order < |par.poly|
    ensures var v := OneHot(|par.poly|, par.order);
            OptimalInterim(par, OptimalStart(par, v)) == BasicEvent(par, v, StopAndResume) == Zeros(|v|) != v
  {
    ResetReadsBackIffClean(par, OneHot(|par.poly|, par.order));
    LoneBitMasked(|par.poly|, par.order);
  }

  lemma LoneBitMasked(width: nat, n: nat)
    requires n < width
    ensures Masked(OneHot(width, n), n) == Zeros(width) != OneHot(width, n)
  {
    assert OneHot(width, n)[n] && !Zeros(width)[n];
  }

  lemma {:induction false} OptimalSessionTracks(par: Parameters, init: Word, events: seq<Event>)
    requires par.Valid() && |init| == |par.poly| && Compatible(par, init)
    ensures Tracks(par, OptimalSession(par, OptimalStart(par, init), events),
                   Remainder(par, init, AllBytes(events)))
  {
    if events == [] {
      OptimalStartTracks(par, init);
    } else {
      var front, last := events[..|events| - 1], events[|events| - 1];
      var before := OptimalSession(par, OptimalStart(par, init), front);
      var r := Remainder(par, init, AllBytes(front));
      OptimalSessionTracks(par, init, front);
      RemainderResumes(par, init, AllBytes(front), BytesOf(last));
      OptimalRunTracks(par, before, r, BytesOf(last));
      ResumeTracks(par, before, r);
    }
  }

  /** Chunking and stop-and-resume never show in the checksum of either computer. */
  lemma SessionsDoNotShow(par: Parameters, init: Word, events: seq<Event>)
    requires par.Valid() && |init| == |par.poly|
    ensures BasicChecksum(par, BasicSession(par, init, events)) == BasicCrc(par, init, AllBytes(events))
    ensures Compatible(par, init) ==>
            OptimalChecksum(par, OptimalSession(par, OptimalStart(par, init), events)) ==
            BasicCrc(par, init, AllBytes(events))
  {
    BasicSessionIsRemainder(par, init, events);
    BasicChecksumOf(par, BasicSession(par, init, events));
    BasicRunIsRemainder(par, init, AllBytes(events));
    if Compatible(par, init) {
      OptimalSessionTracks(par, init, events);
      OptimalChecksumOf(par, OptimalSession(par, OptimalStart(par, init), events),
                        Remainder(par, init, AllBytes(events)));
    }
  }

  /** What the table-driven computer reads out after a message is the remainder of a polynomial
      division, and nothing else is. */
  lemma InterimIsPolynomialRemainder(par: Parameters, init: Word, bytes: seq<Byte>, r: Word)
    requires par.Valid() && |init| == |par.poly| && Compatible(par, init) && |r| == par.order
    ensures OptimalInterim(par, OptimalRun(par, OptimalStart(par, init), bytes))[..par.order] == r <==>
            exists q :: |q| == |InputBits(bytes, par.reflectIn)| &&
              Dividend(init[..par.order], InputBits(bytes, par.reflectIn)) ==
              Recombined(q, r, par.poly[..par.order])
  {
    OptimalStartTracks(par, init);
    OptimalRunTracks(par, OptimalStart(par, init), init[..par.order], bytes);
    ResumeTracks(par, OptimalRun(par, OptimalStart(par, init), bytes), Remainder(par, init, bytes));
    FeedIsTheRemainder(init[..par.order], InputBits(bytes, par.reflectIn), par.poly[..par.order], r);
  }
}
