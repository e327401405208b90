/** The computer objects and the two free functions, as code that updates its state in place. Byte
    pointers are an array with a start and a count. */
module CrcObjects {
  import opened Words
  import opened Reflection
  import opened ModuloDivision
  import opened CrcDrivers
  import opened CrcComputers
  import opened ErrorDetection
  import opened Polynomials

  /** `crc_basic`: the parameters are ordinary fields. */
  class CrcBasic {
    const order: nat
    var rem: Word
    var poly: Word
    var init: Word
    var finalXor: Word
    var reflectIn: bool
    var reflectOut: bool

    function Params(): Parameters
      reads this
    {
      Parameters(order, poly, init, finalXor, reflectIn, reflectOut)
    }

    ghost predicate Valid()
      reads this
    {
      Params().Valid() && |rem| == |poly|
    }

    constructor (par: Parameters)
      requires par.Valid()
      ensures Valid() && Params() == par && rem == par.init
    {
      order := par.order;
      rem, poly, init, finalXor := par.init, par.poly, par.init, par.finalXor;
      reflectIn, reflectOut := par.reflectIn, par.reflectRem;
    }

    method GetInterimRemainder() returns (r: Word)
      requires Valid()
      ensures r == BasicEvent(Params(), rem, StopAndResume) && r[..order] == rem[..order]
    {
      r := rem[..order] + Zeros(|rem| - order);
    }

    method Reset(newRem: Word)
      requires Valid() && |newRem| == |poly|
      modifies this`rem
      ensures Valid() && rem == newRem
    {
      rem := newRem;
    }

    method ResetToInitial()
      requires Valid()
      modifies this`rem
      ensures Valid() && rem == init
    {
      Reset(init);
    }

    method ProcessBit(bit: bool)
      requires Valid()
      modifies this`rem
      ensures Valid() && rem == Step(order, old(rem), bit, poly)
    {
      rem := CrcModuloUpdate(order, rem, bit, poly);
    }

    /** The lowest bitLength bits of the byte, highest first. */
    method ProcessBits(byte: Byte, bitLength: nat)
      requires Valid() && 0 < bitLength <= 8
      modifies this`rem
      ensures Valid() && rem == Feed(order, old(rem), Reverse(byte[..bitLength]), poly)
    {
      var bits := Shl(byte, 8 - bitLength);
      var highBitMask := OneHot(8, 7);
      ghost var input := Reverse(byte[..bitLength]);
      var i := bitLength;
      while i > 0
        invariant 0 <= i <= bitLength && Valid()
        invariant bits == Shl(byte, 8 - i)
        invariant rem == Feed(order, old(rem), input[..bitLength - i], poly)
      {
        MaskTestsBit(bits, 7);
        NextHighBit(byte, bitLength, i);
        NextInputStep(order, old(rem), input, bitLength - i, poly);
        ProcessBit(And(bits, highBitMask) != Zeros(8));
        i := i - 1;
        bits := Shl(bits, 1);
      }
      assert input[..bitLength] == input;
    }

    method ProcessByte(byte: Byte)
      requires Valid()
      modifies this`rem
      ensures Valid() && rem == Feed(order, old(rem), InOrder(byte, reflectIn), poly)
    {
      var bits := byte;
      if reflectIn {
        bits := ReflectByte(byte);
        ReverseTwice(byte);
      }
      ProcessBits(bits, 8);
      assert bits[..8] == bits;
    }

    method ProcessBlock(buffer: array<Byte>, begin: nat, end: nat)
      requires Valid() && begin <= end <= buffer.Length
      modifies this`rem
      ensures Valid() && rem == BasicRun(Params(), old(rem), buffer[begin..end])
    {
      ghost var bytes := buffer[begin..end];
      ghost var par, start := Params(), rem;
      NoBytesYet(par, start, bytes);
      var at := begin;
      while at < end
        invariant begin <= at <= end && Valid() && Params() == par
        invariant rem == BasicRun(par, start, bytes[..at - begin])
      {
        var byte := buffer[at];
        ghost var before := rem;
        ProcessByte(byte);
        NextBasicByte(par, start, bytes, at - begin, byte, before, rem);
        at := at + 1;
      }
    }

    method ProcessBytes(buffer: array<Byte>, start: nat, count: nat)
      requires Valid() && start + count <= buffer.Length
      modifies this`rem
      ensures Valid() && rem == BasicRun(Params(), old(rem), buffer[start..start + count])
    {
      ProcessBlock(buffer, start, start + count);
    }

    method Checksum() returns (c: Word)
      requires Valid()
      ensures c == BasicChecksum(Params(), rem) == ChecksumOf(Params(), rem[..order])
    {
      var x := ReflectOptionally(rem, reflectOut, order);
      c := Masked(Xor(x, finalXor), order);
      BasicChecksumOf(Params(), rem);
    }
  }

  /** With i bits to go, the top bit is the next input bit. */
  lemma NextHighBit(byte: Byte, bitLength: nat, i: nat)
    requires 0 < i <= bitLength <= 8
    ensures Shl(byte, 8 - i)[7] == Reverse(byte[..bitLength])[bitLength - i]
    ensures Shl(Shl(byte, 8 - i), 1) == Shl(byte, 8 - i + 1)
  {
  }

  lemma NoBytesYet(par: Parameters, start: Word, bytes: seq<Byte>)
    requires par.Valid() && |start| == |par.poly|
    ensures BasicRun(par, start, bytes[..0]) == start && bytes[..|bytes|] == bytes
  {
  }

  lemma NextBasicByte(par: Parameters, start: Word, bytes: seq<Byte>, k: nat, byte: Byte, rem: Word,
                      next: Word)
    requires par.Valid() && |start| == |par.poly| && k < |bytes| && byte == bytes[k]
    requires rem == BasicRun(par, start, bytes[..k])
    requires next == Feed(par.order, rem, InOrder(byte, par.reflectIn), par.poly)
    ensures next == BasicRun(par, start, bytes[..k + 1])
  {
    NextDividedByte(par.order, start, bytes, k, par.reflectIn, par.poly);
  }

  /** The reflector that the order selects: through a byte, or on the whole register. */
  method ReflectQ(x: Word, n: nat) returns (y: Word)
    requires 0 < n <= |x| && 8 <= |x|
    ensures y == Reflector(x, n)
  {
    if n > 8 {
      y := ReflectUnsigned(x, n);
    } else {
      y := ReflectRegister(x, n);
    }
  }

  /** `crc_optimal`: the parameters are template arguments, only the register changes. */
  class CrcOptimal {
    const par: Parameters
    var rem: Word

    ghost predicate Valid()
      reads this
    {
      par.Valid() && |rem| == |par.poly|
    }

    constructor (par: Parameters, initRem: Word)
      requires par.Valid() && |initRem| == |par.poly|
      ensures Valid() && this.par == par && rem == OptimalStart(par, initRem)
    {
      var start := initRem;
      if par.reflectIn {
        start := ReflectQ(initRem, par.order);
      }
      this.par := par;
      rem := start;
    }

    method GetInterimRemainder() returns (r: Word)
      requires Valid()
      ensures r == OptimalInterim(par, rem)
    {
      r := rem;
      if par.reflectIn {
        r := ReflectQ(rem, par.order);
      }
      r := Masked(r, par.order);
    }

    method Reset(newRem: Word)
      requires Valid() && |newRem| == |par.poly|
      modifies this`rem
      ensures Valid() && rem == OptimalStart(par, newRem)
    {
      rem := newRem;
      if par.reflectIn {
        rem := ReflectQ(newRem, par.order);
      }
    }

    method ProcessBytes(buffer: array<Byte>, start: nat, count: nat)
      requires Valid() && start + count <= buffer.Length
      modifies this`rem
      ensures Valid() && rem == OptimalRun(par, old(rem), buffer[start..start + count])
    {
      if par.order < 8 {
        rem := SubByteCrcUpdate(par.order, par.poly, rem, buffer, start, count, par.reflectIn);
      } else if par.reflectIn {
        rem := ReflectedCrcUpdate(par.order, par.poly, rem, buffer, start, count);
      } else {
        rem := DirectCrcUpdate(par.order, par.poly, rem, buffer, start, count);
      }
    }

    method ProcessBlock(buffer: array<Byte>, begin: nat, end: nat)
      requires Valid() && begin <= end <= buffer.Length
      modifies this`rem
      ensures Valid() && rem == OptimalRun(par, old(rem), buffer[begin..end])
    {
      var count := end - begin;
      assert begin + count == end;
      ProcessBytes(buffer, begin, count);
    }

    method ProcessByte(byte: Byte)
      requires Valid()
      modifies this`rem
      ensures Valid() && rem == OptimalRun(par, old(rem), [byte])
    {
      var one := new Byte[1](_ => byte);
      assert one[0..1] == [byte];
      ProcessBytes(one, 0, 1);
    }

    method Checksum() returns (c: Word)
      requires Valid()
      ensures c == OptimalChecksum(par, rem)
    {
      var x := rem;
      if par.reflectRem != par.reflectIn {
        x := ReflectQ(rem, par.order);
      }
      c := Masked(Xor(x, par.finalXor), par.order);
    }
  }

  // ----- Sessions on the objects

  method Block(bytes: seq<Byte>) returns (block: array<Byte>)
    ensures fresh(block) && block.Length == |bytes| && block[..] == bytes
  {
    block := new Byte[|bytes|](i requires 0 <= i < |bytes| => bytes[i]);
  }

  /** The object goes through a session: it reads each chunk, and where the session stops and resumes, its
      interim remainder is read out and given back to it. */
  method RunBasicSession(computer: CrcBasic, events: seq<Event>)
    requires computer.Valid()
    modifies computer`rem
    ensures computer.Valid()
    ensures computer.rem == BasicSession(computer.Params(), old(computer.rem), events)
  {
    ghost var par, start := computer.Params(), computer.rem;
    var k := 0;
    while k < |events|
      invariant k <= |events| && computer.Valid() && computer.Params() == par
      invariant computer.rem == BasicSession(par, start, events[..k])
    {
      var event := events[k];
      if event.Input? {
        var block := Block(event.bytes);
        computer.ProcessBytes(block, 0, block.Length);
        assert block[0..block.Length] == event.bytes;
      } else {
        var interim := computer.GetInterimRemainder();
        computer.Reset(interim);
      }
      assert events[..k + 1][..k] == events[..k];
      k := k + 1;
    }
    assert events[..|events|] == events;
  }

  method RunOptimalSession(computer: CrcOptimal, events: seq<Event>)
    requires computer.Valid()
    modifies computer`rem
    ensures computer.Valid()
    ensures computer.rem == OptimalSession(computer.par, old(computer.rem), events)
  {
    ghost var start := computer.rem;
    var k := 0;
    while k < |events|
      invariant k <= |events| && computer.Valid()
      invariant computer.rem == OptimalSession(computer.par, start, events[..k])
    {
      var event := events[k];
      if event.Input? {
        var block := Block(event.bytes);
        computer.ProcessBytes(block, 0, block.Length);
        assert block[0..block.Length] == event.bytes;
      } else {
        var interim := computer.GetInterimRemainder();
        computer.Reset(interim);
      }
      assert events[..k + 1][..k] == events[..k];
      k := k + 1;
    }
    assert events[..|events|] == events;
  }

  /** `crc`: one table-driven run. Its result is the checksum of the bitwise remainder whenever the
      register allows it, see `ComputersAgreeIffCompatible`. */
  method Crc(par: Parameters, buffer: array<Byte>, start: nat, count: nat) returns (c: Word)
    requires par.Valid() && start + count <= buffer.Length
    ensures c == OptimalCrc(par, par.init, buffer[start..start + count])
    ensures Compatible(par, par.init) ==>
            c == ChecksumOf(par, Remainder(par, par.init, buffer[start..start + count]))
  {
    var computer := new CrcOptimal(par, par.init);
    computer.ProcessBytes(buffer, start, count);
    c := computer.Checksum();
    if Compatible(par, par.init) {
      OptimalAgrees(par, par.init, buffer[start..start + count]);
      BasicRunIsRemainder(par, par.init, buffer[start..start + count]);
    }
  }

  /** The remainder of an augmented message read highest bit first. */
  function AugmentedRemainder(n: nat, r: Word, bytes: seq<Byte>, p: Word): (s: Word)
    requires 0 < n == |r| == |p|
    ensures |s| == n
  {
    AugFeed(n, r, InputBits(bytes, false), p)
  }

  /** `augmented_crc`: it uses the byte-table drivers for every order, so the order is at least 8. */
  method AugmentedCrc(order: nat, p: Word, buffer: array<Byte>, start: nat, count: nat, initialRemainder: Word)
    returns (c: Word)
    requires 8 <= order <= |p| == |initialRemainder| && start + count <= buffer.Length
    ensures c == AugmentedRemainder(order, initialRemainder[..order], buffer[start..start + count], p[..order])
              + Zeros(|p| - order)
  {
    var r := DirectAugmentedCrcUpdate(order, p, initialRemainder, buffer, start, count);
    c := Masked(r, order);
  }

  /** The documented way to read a block in several runs: the value returned for the first part is the
      start value of the next. */
  lemma AugmentedRunsChain(n: nat, r: Word, a: seq<Byte>, b: seq<Byte>, p: Word)
    requires 0 < n == |r| == |p|
    ensures AugmentedRemainder(n, AugmentedRemainder(n, r, a, p), b, p) == AugmentedRemainder(n, r, a + b, p)
    ensures AugmentedRemainder(n, r, [], p) == r
  {
    InputBitsConcat(a, b, false);
    FeedConcat(n, r, InputBits(a, false), InputBits(b, false), p);
  }

  /** The documented meaning, for every order and every length of the buffer, shorter than the order or
      not: the remainder of r x^k + m by the full divisor, where m is the polynomial whose k coefficients
      are the bits read, highest first. Nothing else satisfies the division identity. */
  lemma AugmentedRemainderIsTheRemainder(n: nat, r: Word, bytes: seq<Byte>, p: Word, s: Word)
    requires 0 < n == |r| == |p| == |s|
    ensures s == AugmentedRemainder(n, r, bytes, p) <==>
            exists q :: |q| == 8 * |bytes| &&
              AugDividend(r, InputBits(bytes, false)) == Recombined(q, s, p)
  {
    InputBitsLength(bytes, false);
    AugFeedIsTheRemainder(r, InputBits(bytes, false), p, s);
  }

  /** A word of whole bytes in big-endian order. */
  function BigEndian(word: Word): seq<Byte>
    requires |word| % 8 == 0
  {
    if word == [] then [] else BigEndian(word[8..]) + [word[..8]]
  }

  lemma {:induction false} BigEndianBits(word: Word)
    requires |word| % 8 == 0
    ensures InputBits(BigEndian(word), false) == Reverse(word)
  {
    if word != [] {
      BigEndianBits(word[8..]);
      InputBitsConcat(BigEndian(word[8..]), [word[..8]], false);
      assert InputBits([word[..8]], false) == [] + Reverse(word[..8]);
    }
  }

  lemma AppendedBits(bytes: seq<Byte>, word: Word)
    requires |word| % 8 == 0
    ensures InputBits(bytes + BigEndian(word), false) == InputBits(bytes, false) + Reverse(word)
  {
    BigEndianBits(word);
    InputBitsConcat(bytes, BigEndian(word), false);
  }

  lemma PaddedBits(bytes: seq<Byte>, n: nat)
    requires n % 8 == 0
    ensures InputBits(bytes + BigEndian(Zeros(n)), false) == InputBits(bytes, false) + Zeros(n)
  {
    AppendedBits(bytes, Zeros(n));
    assert Reverse(Zeros(n)) == Zeros(n);
  }

  /** Zero bytes after the message give its checksum: the unaugmented remainder from the converted
      start value. A zero start is its own conversion, see the next lemma. */
  lemma ZeroBytesGiveChecksum(n: nat, r: Word, bytes: seq<Byte>, p: Word)
    requires 0 < n == |r| == |p| && n % 8 == 0
    ensures AugmentedRemainder(n, r, bytes + BigEndian(Zeros(n)), p)
         == Feed(n, AugFeed(n, r, Zeros(n), p), InputBits(bytes, false), p)
  {
    PaddedBits(bytes, n);
    AugmentedIsUnaugmented(n, r, InputBits(bytes, false), p);
  }

  lemma ZeroStartIsItsOwnConversion(n: nat, p: Word)
    requires 0 < n == |p|
    ensures AugFeed(n, Zeros(n), Zeros(n), p) == Zeros(n)
  {
    ZerosStay(n, n, n, p);
    ZeroInputSame(n, Zeros(n), n, p);
  }

  /** Other bytes in their place give zero exactly when they are that checksum in big-endian order. */
  lemma AppendedChecksumGivesZero(n: nat, r: Word, bytes: seq<Byte>, appended: Word, p: Word)
    requires 0 < n == |r| == |p| == |appended| && n % 8 == 0
    ensures AugmentedRemainder(n, r, bytes + BigEndian(appended), p) == Zeros(n)
       <==> appended == AugmentedRemainder(n, r, bytes + BigEndian(Zeros(n)), p)
  {
    AppendedBits(bytes, appended);
    PaddedBits(bytes, n);
    ResidueIsZeroIffChecksum(n, r, InputBits(bytes, false), appended, p);
  }
}
