/** The bitwise computer. */
module CrcBasicComputer {
  import opened Registers
  import opened Division
  import opened Polynomials
  import opened Reflection
  import opened Dividers
  import opened Drivers
  import opened Formula

  /** k bits of a byte, pushed to its top, come out there one by one. */
  lemma PushedBits(bits: Byte, k: nat, i: nat)
    requires i < k <= 8
    ensures Shl(bits, 8 - k + i)[7] == WordStream(bits, k, false)[i]
    ensures Shl(Shl(bits, 8 - k + i), 1) == Shl(bits, 8 - k + (i + 1))
    ensures WordStream(bits, k, false)[..i + 1] == WordStream(bits, k, false)[..i] + [WordStream(bits, k, false)[i]]
  {
  }

  class CrcBasic {
    const bitCount: nat
    var rem: Register
    var poly: Register
    var init: Register
    var final: Register
    var reflectIn: bool
    var reflectOut: bool

    // the remainder of the last reset, and the bits divided since then
    ghost var origin: Register
    ghost var history: seq<bool>

    ghost function Parameters(): (c: Params)
      reads this
    {
      Params(bitCount, poly, init, final, reflectIn, reflectOut)
    }

    ghost predicate Valid()
      reads this
    {
      && Parameters().Valid()
      && |origin| == |poly|
      && rem == Run(bitCount, origin, history, poly)
    }

    constructor (bits: nat, truncatedPolynomial: Register, initialRemainder: Register, finalXorValue: Register,
                 reflectInput: bool, reflectRemainder: bool)
      requires 0 < bits <= |truncatedPolynomial| == |initialRemainder| == |finalXorValue|
      ensures Valid()
      ensures Parameters() ==
        Params(bits, truncatedPolynomial, initialRemainder, finalXorValue, reflectInput, reflectRemainder)
      ensures bitCount == bits && poly == truncatedPolynomial && init == initialRemainder && final == finalXorValue
      ensures reflectIn == reflectInput && reflectOut == reflectRemainder
      ensures rem == origin == initialRemainder && history == []
    {
      bitCount := bits;
      rem, poly, init, final := initialRemainder, truncatedPolynomial, initialRemainder, finalXorValue;
      reflectIn, reflectOut := reflectInput, reflectRemainder;
      origin, history := initialRemainder, [];
    }

    method GetInterimRemainder() returns (r: Register)
      requires Valid()
      ensures r == Resize(Remainder(Parameters(), origin, history), |poly|)
    {
      r := And(rem, LowMask(|rem|, bitCount));
      RunLow(bitCount, origin, history, poly);
      BasicShows(Parameters(), rem);
    }

    method Reset(newRem: Register)
      requires Valid() && |newRem| == |poly|
      modifies this`rem, this`origin, this`history
      ensures Valid() && rem == origin == newRem && history == [] && Parameters() == old(Parameters())
    {
      rem := newRem;
      origin, history := newRem, [];
    }

    method ResetToInitial()
      requires Valid()
      modifies this`rem, this`origin, this`history
      ensures Valid() && history == [] && Parameters() == old(Parameters())
      ensures rem == origin == init == Parameters().init
    {
      Reset(init);
    }

    method ProcessBit(bit: bool)
      requires Valid()
      modifies this`rem, this`history
      ensures Valid() && history == old(history) + [bit] && Parameters() == old(Parameters())
    {
      hide Run;
      RunConcat(bitCount, origin, history, [bit], poly);
      rem := CrcModuloUpdate(bitCount, rem, bit, poly);
      history := history + [bit];
    }

    method ProcessBits(bits: Byte, bitLength: nat)
      requires Valid() && 0 < bitLength <= 8
      modifies this`rem, this`history
      ensures Valid() && Parameters() == old(Parameters())
      ensures history == old(history) + WordStream(bits, bitLength, false)
    {
      hide Run, WordStream, Shl;
      // ignore the bits above the wanted ones
      var left: Byte := Shl(bits, 8 - bitLength);
      ghost var ms := WordStream(bits, bitLength, false);
      var highBitMask := OneHot(8, 7);
      var i := bitLength;
      while i > 0
        invariant Valid() && 0 <= i <= bitLength
        invariant i > 0 ==> left == Shl(bits, 8 - bitLength + (bitLength - i))
        invariant history == old(history) + ms[..bitLength - i]
      {
        PushedBits(bits, bitLength, bitLength - i);
        TestBit(left, 7);
        ProcessBit(And(left, highBitMask) != Zeros(8));
        left := Shl(left, 1);
        i := i - 1;
      }
      assert ms[..bitLength] == ms;
    }

    method ProcessByte(byte: Byte)
      requires Valid()
      modifies this`rem, this`history
      ensures Valid() && Parameters() == old(Parameters())
      ensures history == old(history) + WordStream(byte, 8, Parameters().reflectIn)
    {
      var bits := ReflectByteOptionally(byte, reflectIn);
      ProcessBits(bits, 8);
      ByteOrder(byte, reflectIn);
    }

    method ProcessBlock(buffer: array<Byte>, begin: nat, end: nat)
      requires Valid() && begin <= end <= buffer.Length
      modifies this`rem, this`history
      ensures Valid() && Parameters() == old(Parameters())
      ensures history == old(history) + Stream(buffer[begin..end], Parameters().reflectIn)
    {
      hide Run, WordStream;
      var p := begin;
      while p < end
        invariant Valid() && begin <= p <= end
        invariant history == old(history) + Stream(buffer[begin..p], reflectIn)
      {
        assert buffer[begin..p + 1][..p - begin] == buffer[begin..p];
        ProcessByte(buffer[p]);
        p := p + 1;
      }
    }

    method ProcessBytes(buffer: array<Byte>, start: nat, count: nat)
      requires Valid() && start + count <= buffer.Length
      modifies this`rem, this`history
      ensures Valid() && Parameters() == old(Parameters())
      ensures history == old(history) + Stream(buffer[start..start + count], Parameters().reflectIn)
    {
      ProcessBlock(buffer, start, start + count);
    }

    /** The checksum is that of polynomial division over all bits since the last reset. */
    method Checksum() returns (sum: Register)
      requires Valid()
      ensures sum == BasicChecksum(Parameters(), rem)
      ensures forall s ::
        |s| == bitCount && IsRemainder(Dividend(origin[..bitCount], history), poly[..bitCount], s)
        ==> sum == Output(Parameters(), s)
      ensures sum == Output(Parameters(), Remainder(Parameters(), origin, history))
    {
      hide Run, IsRemainder, Output;
      var reflected := rem;
      if reflectOut {
        reflected := ReflectUnsigned(rem, bitCount);
      }
      sum := And(Xor(reflected, final), LowMask(|rem|, bitCount));
      RunLow(bitCount, origin, history, poly);
      BasicShows(Parameters(), rem);
      forall s | |s| == bitCount && IsRemainder(Dividend(origin[..bitCount], history), poly[..bitCount], s)
        ensures sum == Output(Parameters(), s)
      {
        RemainderDivides(Parameters(), origin, history, s);
      }
    }
  }

  /** A computer's whole life, from its arguments to its checksum. */
  method ChecksumOfBuffer(c: Params, buffer: array<Byte>, start: nat, count: nat) returns (sum: Register)
    requires c.Valid() && start + count <= buffer.Length
    ensures sum == BasicChecksum(c, BasicFeed(c, c.init, buffer[start..start + count]))
    ensures sum == Output(c, Remainder(c, c.init, Stream(buffer[start..start + count], c.reflectIn)))
  {
    hide Run, Output, Remainder, BasicChecksum, BasicFeed;
    var computer := new CrcBasic(c.order, c.poly, c.init, c.final, c.reflectIn, c.reflectRem);
    computer.ProcessBytes(buffer, start, count);
    assert computer.history == Stream(buffer[start..start + count], c.reflectIn);
    sum := computer.Checksum();
    BasicMeaning(c, c.init, buffer[start..start + count]);
  }

  /** After any input, reset() goes back to the remainder of construction. */
  method InterimAfterReset(c: Params, buffer: array<Byte>, start: nat, count: nat) returns (r: Register)
    requires c.Valid() && start + count <= buffer.Length
    ensures r == Resize(c.init[..c.order], |c.poly|)
  {
    var computer := new CrcBasic(c.order, c.poly, c.init, c.final, c.reflectIn, c.reflectRem);
    computer.ProcessBytes(buffer, start, count);
    computer.ResetToInitial();
    r := computer.GetInterimRemainder();
  }

  lemma ByteOrder(byte: Byte, reflect: bool)
    ensures WordStream(if reflect then Reverse(byte) else byte, 8, false) == WordStream(byte, 8, reflect)
  {
    assert byte[..8] == byte && Reverse(byte)[..8] == Reverse(byte);
    ReverseTwice(byte);
  }

  /** Reading k bits at once is reading the upper ones and then the j lowest. */
  lemma BitGroupsCompose(bits: Byte, k: nat, j: nat)
    requires j <= k <= 8
    ensures WordStream(bits, k, false) == WordStream(Shr(bits, j), k - j, false) + WordStream(bits, j, false)
  {
    assert bits[..k] == bits[..j] + bits[j..k];
    assert bits[j..k] == Shr(bits, j)[..k - j];
    ReverseConcat(bits[..j], bits[j..k]);
  }
}
