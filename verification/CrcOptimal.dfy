/** The table-driven computer and the two computing functions. */
module CrcOptimalComputer {
  import opened Registers
  import opened Division
  import opened Polynomials
  import opened Reflection
  import opened Drivers
  import opened CrcDriver
  import opened Formula
  import opened Agreement
  import opened Sessions
  import opened AugmentedMessages

  class CrcOptimal {
    // the template arguments
    const formula: Params
    var rem: Register

    // the remainder of the last reset, and the bytes divided since then
    ghost var origin: Register
    ghost var input: seq<Byte>

    ghost predicate Valid()
      reads this
    {
      && formula.Valid()
      && |origin| == |formula.poly|
      && rem == OptimalFeed(formula, OptimalStart(formula, origin), input)
    }

    constructor (c: Params)
      requires c.Valid()
      ensures Valid() && formula == c && origin == c.init && input == []
    {
      formula := c;
      var r := PossibleReflector(c.order, c.init, c.reflectIn);
      rem := r;
      origin, input := c.init, [];
      FeedNothing(c, c.init);
    }

    constructor WithRemainder(c: Params, initRem: Register)
      requires c.Valid() && |initRem| == |c.poly|
      ensures Valid() && formula == c && origin == initRem && input == []
    {
      formula := c;
      var r := PossibleReflector(c.order, initRem, c.reflectIn);
      rem := r;
      origin, input := initRem, [];
      FeedNothing(c, initRem);
    }

    /** The interim remainder is not reflected, and where carries are harmless it is that of the division. */
    method GetInterimRemainder() returns (r: Register)
      requires Valid()
      ensures r == OptimalInterim(formula, rem)
           == OptimalInterim(formula, OptimalFeed(formula, OptimalStart(formula, origin), input))
      ensures CarriesHarmless(formula, origin) ==>
        r == Resize(Remainder(formula, origin, Stream(input, formula.reflectIn)), |rem|)
    {
      hide OptimalFeed, OptimalStart, BasicFeed, CarriesHarmless, Remainder;
      var q := PossibleReflector(formula.order, rem, formula.reflectIn);
      r := And(q, LowMask(|rem|, formula.order));
      if CarriesHarmless(formula, origin) {
        InterimsAgree(formula, origin, input);
        BasicMeaning(formula, origin, input);
        BasicShows(formula, BasicFeed(formula, origin, input));
      }
    }

    method Reset(newRem: Register)
      requires Valid() && |newRem| == |formula.poly|
      modifies this`rem, this`origin, this`input
      ensures Valid() && origin == newRem && input == []
    {
      rem := PossibleReflector(formula.order, newRem, formula.reflectIn);
      origin, input := newRem, [];
      FeedNothing(formula, newRem);
    }

    method ResetToInitial()
      requires Valid()
      modifies this`rem, this`origin, this`input
      ensures Valid() && origin == formula.init && input == []
    {
      Reset(formula.init);
    }

    method ProcessBytes(buffer: array<Byte>, start: nat, count: nat)
      requires Valid() && start + count <= buffer.Length
      modifies this`rem, this`input
      ensures Valid() && input == old(input) + buffer[start..start + count]
    {
      hide Update, OptimalStart;
      OptimalFeedConcat(formula, OptimalStart(formula, origin), input, buffer[start..start + count]);
      rem := CrcUpdate(formula.order, rem, buffer, start, count, formula.poly, formula.reflectIn);
      input := input + buffer[start..start + count];
    }

    method ProcessByte(byte: Byte)
      requires Valid()
      modifies this`rem, this`input
      ensures Valid() && input == old(input) + [byte]
    {
      var cell := new Byte[1](_ => byte);
      ProcessBytes(cell, 0, 1);
    }

    method ProcessBlock(buffer: array<Byte>, begin: nat, end: nat)
      requires Valid() && begin <= end <= buffer.Length
      modifies this`rem, this`input
      ensures Valid() && input == old(input) + buffer[begin..end]
    {
      ProcessBytes(buffer, begin, end - begin);
    }

    /** operator(): the function-object form of ProcessByte */
    method Submit(byte: Byte)
      requires Valid()
      modifies this`rem, this`input
      ensures Valid() && input == old(input) + [byte]
    {
      ProcessByte(byte);
    }

    /** Where carries are harmless, this is the checksum of polynomial division over all bytes since the last reset. */
    method Checksum() returns (sum: Register)
      requires Valid()
      ensures sum == OptimalChecksum(formula, rem)
           == OptimalChecksum(formula, OptimalFeed(formula, OptimalStart(formula, origin), input))
      ensures CarriesHarmless(formula, origin) ==>
        && sum == BasicChecksum(formula, BasicFeed(formula, origin, input))
        && sum == Output(formula, Remainder(formula, origin, Stream(input, formula.reflectIn)))
    {
      hide OptimalFeed, OptimalStart, BasicFeed, BasicChecksum, CarriesHarmless, Remainder, Output;
      var q := PossibleReflector(formula.order, rem, formula.reflectRem != formula.reflectIn);
      sum := And(Xor(q, formula.final), LowMask(|rem|, formula.order));
      if CarriesHarmless(formula, origin) {
        AgreementIffCarriesHarmless(formula, origin);
        assert AgreeOn(formula, origin, input);
        BasicMeaning(formula, origin, input);
      }
    }

    /** operator(): the function-object form of Checksum */
    method Result() returns (sum: Register)
      requires Valid()
      ensures sum == OptimalChecksum(formula, rem)
           == OptimalChecksum(formula, OptimalFeed(formula, OptimalStart(formula, origin), input))
      ensures CarriesHarmless(formula, origin) ==>
        && sum == BasicChecksum(formula, BasicFeed(formula, origin, input))
        && sum == Output(formula, Remainder(formula, origin, Stream(input, formula.reflectIn)))
    {
      sum := Checksum();
    }
  }

  method Crc(c: Params, buffer: array<Byte>, start: nat, count: nat) returns (sum: Register)
    requires c.Valid() && start + count <= buffer.Length
    ensures sum == OptimalChecksum(c, OptimalFeed(c, OptimalStart(c, c.init), buffer[start..start + count]))
    ensures CarriesHarmless(c, c.init) ==>
      forall s ::
        && |s| == c.order
        && IsRemainder(Dividend(c.init[..c.order], Stream(buffer[start..start + count], c.reflectIn)),
                       c.poly[..c.order], s)
        ==> sum == Output(c, s)
  {
    hide IsRemainder, Remainder, CarriesHarmless, Output;
    hide OptimalChecksum, OptimalFeed, OptimalStart, BasicChecksum, BasicFeed;
    ghost var data := buffer[start..start + count];
    var computer := new CrcOptimal(c);
    computer.ProcessBytes(buffer, start, count);
    assert computer.input == data;
    sum := computer.Checksum();
    if CarriesHarmless(c, c.init) {
      forall s |
        && |s| == c.order
        && IsRemainder(Dividend(c.init[..c.order], Stream(data, c.reflectIn)), c.poly[..c.order], s)
        ensures sum == Output(c, s)
      {
        RemainderDivides(c, c.init, Stream(data, c.reflectIn), s);
      }
    }
  }

  /** The class that augmented_crc takes its driver from demands an order of 8 at least. */
  method AugmentedCrcOf(n: nat, p: Register, buffer: array<Byte>, start: nat, count: nat, initialRemainder: Register)
    returns (r: Register)
    requires 8 <= n <= |p| == |initialRemainder| && start + count <= buffer.Length
    ensures r == AugmentedCrc(n, p, buffer[start..start + count], initialRemainder)
    ensures IsRemainder(
      AugmentedDividend(initialRemainder[..n], Stream(buffer[start..start + count], false)), p[..n], r[..n])
    ensures r == Resize(r[..n], |p|)
  {
    hide IsRemainder, AugRun;
    ghost var data := buffer[start..start + count];
    var updated := DirectAugmentedCrcUpdate(n, initialRemainder, buffer, start, count, p);
    r := And(LowMask(|p|, n), updated);
    AugmentedCrcMeaning(n, p, data, initialRemainder);
    assert r[..n] == AugRun(n, initialRemainder[..n], Stream(data, false), p[..n]);
    AugRunIsRemainder(initialRemainder[..n], Stream(data, false), p[..n], r[..n]);
  }
}
