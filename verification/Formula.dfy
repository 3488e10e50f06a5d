/**
  One CRC formula and the two computers for it, as functions of their register: the
  bitwise one (crc_basic) and the table-driven one (crc_optimal).
 */
module Formula {
  import opened Registers
  import opened Division
  import opened Polynomials
  import opened Reflection
  import opened Drivers

  /** The register width is that of the parameters; bits above the order are unregulated. */
  datatype Params = Params(
    order: nat, poly: Register, init: Register, final: Register, reflectIn: bool, reflectRem: bool)
  {
    ghost predicate Valid() {
      0 < order <= |poly| == |init| == |final|
    }

    predicate Exactly() {
      Exact(order, |poly|, reflectIn)
    }
  }

  // ----- What the outside world sees

  /** Output processing of a remainder: possibly reflected, then xored. */
  function Output(c: Params, remainder: Register): (sum: Register)
    requires c.Valid() && |remainder| == c.order
    ensures |sum| == |c.final|
  {
    Resize(Xor(if c.reflectRem then Reverse(remainder) else remainder, c.final[..c.order]), |c.final|)
  }

  /** The remainder after the given bits, for a start remainder r of which only the low bits count. */
  function Remainder(c: Params, r: Register, ms: seq<bool>): (s: Register)
    requires c.Valid() && |r| == |c.poly|
    ensures |s| == c.order
  {
    Run(c.order, r[..c.order], ms, c.poly[..c.order])
  }

  /** It is the dividend, start remainder * x^k + message * x^n, modulo the divisor. */
  lemma RemainderDivides(c: Params, r: Register, ms: seq<bool>, s: Register)
    requires c.Valid() && |r| == |c.poly|
    ensures IsRemainder(Dividend(r[..c.order], ms), c.poly[..c.order], s) <==> s == Remainder(c, r, ms)
  {
    RunIsRemainder(r[..c.order], ms, c.poly[..c.order], s);
  }

  /** The checksum bit by bit. */
  lemma OutputPlaces(c: Params, r: Register, i: nat)
    requires c.Valid() && |r| == c.order && i < |c.final|
    ensures Output(c, r)[i] ==
      if i >= c.order then false
      else if c.reflectRem then r[c.order - 1 - i] != c.final[i]
      else r[i] != c.final[i]
  {
  }

  lemma OutputInjective(c: Params, r: Register, s: Register)
    requires c.Valid() && |r| == |s| == c.order
    requires Output(c, r) == Output(c, s)
    ensures r == s
  {
    forall i | 0 <= i < c.order
      ensures r[i] == s[i]
    {
      var j := if c.reflectRem then c.order - 1 - i else i;
      assert Output(c, r)[j] == Output(c, s)[j];
    }
  }

  // ----- crc_basic

  function BasicFeed(c: Params, rem: Register, data: seq<Byte>): (s: Register)
    requires c.Valid() && |rem| == |c.poly|
    ensures |s| == |rem|
  {
    Run(c.order, rem, Stream(data, c.reflectIn), c.poly)
  }

  function BasicInterim(c: Params, rem: Register): (s: Register)
    requires c.Valid() && |rem| == |c.poly|
    ensures |s| == |rem|
  {
    And(rem, LowMask(|rem|, c.order))
  }

  function BasicChecksum(c: Params, rem: Register): (s: Register)
    requires c.Valid() && |rem| == |c.poly|
    ensures |s| == |rem|
  {
    And(Xor(if c.reflectRem then Reflect(rem, c.order) else rem, c.final), LowMask(|rem|, c.order))
  }

  lemma BasicShows(c: Params, rem: Register)
    requires c.Valid() && |rem| == |c.poly|
    ensures BasicInterim(c, rem) == Resize(rem[..c.order], |rem|)
    ensures BasicChecksum(c, rem) == Output(c, rem[..c.order])
  {
  }

  lemma BasicMeaning(c: Params, r: Register, data: seq<Byte>)
    requires c.Valid() && |r| == |c.poly|
    ensures BasicFeed(c, r, data)[..c.order] == Remainder(c, r, Stream(data, c.reflectIn))
    ensures BasicChecksum(c, BasicFeed(c, r, data)) == Output(c, Remainder(c, r, Stream(data, c.reflectIn)))
  {
    hide *;
    BasicFeedLow(c, r, data);
    BasicShows(c, BasicFeed(c, r, data));
  }

  lemma BasicFeedLow(c: Params, r: Register, data: seq<Byte>)
    requires c.Valid() && |r| == |c.poly|
    ensures BasicFeed(c, r, data)[..c.order] == Remainder(c, r, Stream(data, c.reflectIn))
  {
    RunLow(c.order, r, Stream(data, c.reflectIn), c.poly);
  }

  // ----- crc_optimal

  function OptimalStart(c: Params, r: Register): (rem: Register)
    requires c.Valid() && |r| == |c.poly|
    ensures |rem| == |r|
  {
    ReflectQ(c.order, r, c.reflectIn)
  }

  function OptimalFeed(c: Params, rem: Register, data: seq<Byte>): (s: Register)
    requires c.Valid() && |rem| == |c.poly|
    ensures |s| == |rem|
  {
    Update(c.order, rem, data, c.poly, c.reflectIn, false)
  }

  function OptimalInterim(c: Params, rem: Register): (s: Register)
    requires c.Valid() && |rem| == |c.poly|
    ensures |s| == |rem|
  {
    And(ReflectQ(c.order, rem, c.reflectIn), LowMask(|rem|, c.order))
  }

  function OptimalChecksum(c: Params, rem: Register): (s: Register)
    requires c.Valid() && |rem| == |c.poly|
    ensures |s| == |rem|
  {
    And(Xor(ReflectQ(c.order, rem, c.reflectRem != c.reflectIn), c.final), LowMask(|rem|, c.order))
  }

  /** The remainder that the register of the table-driven computer stands for. */
  function Shown(c: Params, rem: Register): (s: Register)
    requires c.Valid() && |rem| == |c.poly|
    ensures |s| == c.order
  {
    if c.reflectIn then Reverse(rem[..c.order]) else rem[..c.order]
  }

  /** Input reflection cancels output reflection. */
  lemma OptimalShows(c: Params, rem: Register)
    requires c.Valid() && |rem| == |c.poly|
    ensures OptimalInterim(c, rem) == Resize(Shown(c, rem), |rem|)
    ensures OptimalChecksum(c, rem) == Output(c, Shown(c, rem))
    ensures ReflectQ(c.order, rem, c.reflectIn)[..c.order] == Shown(c, rem)
  {
    ReflectQLow(c.order, rem, c.reflectIn);
    ReflectQLow(c.order, rem, c.reflectRem != c.reflectIn);
    ReverseTwice(rem[..c.order]);
    MaskedOutput(c, ReflectQ(c.order, rem, c.reflectRem != c.reflectIn), Shown(c, rem));
    MaskIsResize(ReflectQ(c.order, rem, c.reflectIn), c.order);
  }

  lemma MaskIsResize(x: Register, n: nat)
    requires n <= |x|
    ensures And(x, LowMask(|x|, n)) == Resize(x[..n], |x|)
  {
  }

  lemma MaskedOutput(c: Params, x: Register, r: Register)
    requires c.Valid() && |x| == |c.poly| && |r| == c.order
    requires x[..c.order] == if c.reflectRem then Reverse(r) else r
    ensures And(Xor(x, c.final), LowMask(|x|, c.order)) == Output(c, r)
  {
    MaskIsResize(Xor(x, c.final), c.order);
    XorPrefix(x, c.final, c.order);
  }

  /** Starting and then showing gives the start remainder back. */
  lemma StartShown(c: Params, r: Register)
    requires c.Valid() && |r| == |c.poly|
    ensures Shown(c, OptimalStart(c, r)) == r[..c.order]
  {
    ReflectQLow(c.order, r, c.reflectIn);
    ReverseTwice(r[..c.order]);
  }

  lemma {:induction false} OptimalMeaning(c: Params, rem: Register, data: seq<Byte>)
    requires c.Valid() && |rem| == |c.poly| && c.Exactly()
    ensures Shown(c, OptimalFeed(c, rem, data))
         == Run(c.order, Shown(c, rem), Stream(data, c.reflectIn), c.poly[..c.order])
  {
    hide Run, ReflectQ, Update, Shown;
    OptimalShows(c, rem);
    OptimalShows(c, OptimalFeed(c, rem, data));
    UpdateDivides(c.order, rem, data, c.poly, c.reflectIn, false);
  }

  // ----- The table-driven computer refines the bitwise one

  /** In an exact setting both computers give the checksum of the bitwise division. */
  lemma OptimalAgrees(c: Params, r: Register, data: seq<Byte>)
    requires c.Valid() && |r| == |c.poly| && c.Exactly()
    ensures var optimal, basic := OptimalFeed(c, OptimalStart(c, r), data), BasicFeed(c, r, data);
      && OptimalChecksum(c, optimal) == BasicChecksum(c, basic)
      && OptimalInterim(c, optimal) == BasicInterim(c, basic)
  {
    hide *;
    var optimal, basic := OptimalFeed(c, OptimalStart(c, r), data), BasicFeed(c, r, data);
    RemainderIsRun(c, r, Stream(data, c.reflectIn));
    StartShown(c, r);
    OptimalMeaning(c, OptimalStart(c, r), data);
    OptimalShows(c, optimal);
    BasicMeaning(c, r, data);
    BasicShows(c, basic);
  }

  /** Definitions, for the proof above. */
  lemma RemainderIsRun(c: Params, r: Register, ms: seq<bool>)
    requires c.Valid() && |r| == |c.poly|
    ensures Remainder(c, r, ms) == Run(c.order, r[..c.order], ms, c.poly[..c.order])
    ensures 0 < c.order <= |c.poly| == |c.init| == |c.final|
  {
  }
}
