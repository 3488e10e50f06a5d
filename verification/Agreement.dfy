/**
  When do the two computers agree?  Exactly in the settings without carry bits that
  can come back: a reflected register of 8 bits or more must be as wide as the order.
 */
module Agreement {
  import opened Registers
  import opened Division
  import opened Reflection
  import opened Tables
  import opened Drivers
  import opened Formula

  /** No bit at or above place n. */
  predicate Truncated(n: nat, x: Register) {
    forall i :: n <= i < |x| ==> !x[i]
  }

  /** No bit above place n but the one at n: a polynomial given with its leading term. */
  predicate WithLeadingTerm(n: nat, x: Register) {
    n < |x| && x[n] && Truncated(n + 1, x)
  }

  /**
    The condition for agreement: no carry bits can come back, or there are none because
    the polynomial was given with its leading term and the start remainder fits the order
    (up to 8 bits the start remainder is cut to fit).
   */
  predicate CarriesHarmless(c: Params, r: Register) {
    || c.Exactly()
    || (WithLeadingTerm(c.order, c.poly) && (c.order <= 8 || Truncated(c.order, r)))
  }

  /** What that means for the register of the table-driven computer. */
  predicate Sound(c: Params, s: Register) {
    c.Exactly() || (WithLeadingTerm(c.order, c.poly) && Truncated(c.order, s))
  }

  lemma SoundStart(c: Params, r: Register)
    requires c.Valid() && |r| == |c.poly|
    ensures Sound(c, OptimalStart(c, r)) <==> CarriesHarmless(c, r)
  {
    if !c.Exactly() {
      ReflectQLow(c.order, r, true);
      var s, n := OptimalStart(c, r), c.order;
      if n > 8 {
        assert forall i :: n <= i < |r| ==> s[i] == s[n..][i - n] && r[i] == r[n..][i - n];
      }
    }
  }

  /** The interim remainder after a reset is the given one if and only if that one fits the order. */
  lemma ResetShown(c: Params, r: Register)
    requires c.Valid() && |r| == |c.poly|
    ensures BasicInterim(c, r) == r <==> Truncated(c.order, r)
    ensures OptimalInterim(c, OptimalStart(c, r)) == r <==> Truncated(c.order, r)
  {
    BasicShows(c, r);
    OptimalShows(c, OptimalStart(c, r));
    StartShown(c, r);
    var cut := Resize(r[..c.order], |r|);
    if Truncated(c.order, r) {
      assert cut == r;
    } else {
      var i :| c.order <= i < |r| && r[i];
      assert cut[i] != r[i];
    }
  }

  /** Output processing as the documentation of reset writes it, without the mask. */
  function Documented(c: Params, r: Register): (sum: Register)
    requires c.Valid() && |r| == |c.poly|
    ensures |sum| == |r|
  {
    Xor(if c.reflectRem then Reflect(r, c.order) else r, c.final)
  }

  lemma MaskedOrNot(x: Register, n: nat)
    requires n <= |x|
    ensures x == And(x, LowMask(|x|, n)) <==> Truncated(n, x)
  {
    var y := And(x, LowMask(|x|, n));
    if Truncated(n, x) {
      assert x == y;
    } else {
      var i :| n <= i < |x| && x[i];
      assert x[i] != y[i];
    }
  }

  /**
    The checksum after a reset is the documented one if and only if the new remainder and
    the final xor value hold the same bits above the order.
   */
  lemma ResetChecksum(c: Params, r: Register)
    requires c.Valid() && |r| == |c.poly|
    ensures Documented(c, r) == BasicChecksum(c, r) <==> Truncated(c.order, Xor(r, c.final))
    ensures Documented(c, r) == OptimalChecksum(c, OptimalStart(c, r)) <==> Truncated(c.order, Xor(r, c.final))
  {
    hide OptimalChecksum, OptimalStart, Output, Shown;
    BasicShows(c, r);
    OptimalShows(c, OptimalStart(c, r));
    StartShown(c, r);
    MaskedOrNot(Documented(c, r), c.order);
    SameAbove(c, r);
  }

  lemma SameAbove(c: Params, r: Register)
    requires c.Valid() && |r| == |c.poly|
    ensures Truncated(c.order, Documented(c, r)) <==> Truncated(c.order, Xor(r, c.final))
  {
    var x, y := Documented(c, r), Xor(r, c.final);
    forall i | c.order <= i < |r|
      ensures x[i] == y[i]
    {
      ReflectPlaces(r, c.order, i);
    }
  }

  // ----- Carry bits

  /** A word of seven zeros and a one, read in that order. */
  function LoneBit(): Byte {
    [false, false, false, false, false, false, false, true]
  }

  lemma LoneBitEntry(n: nat, p: Register, j: nat)
    requires 8 <= n <= j < |p|
    ensures Entry(n, p, true, LoneBit())[j] == BitEffect(n, p)[j]
    ensures Entry(n, p, true, Zeros(8)) == Zeros(|p|)
  {
    hide Run, BitEffect;
    RunConcat(n, Zeros(|p|), Zeros(7), [true], p);
    assert LoneBit() == Zeros(7) + [true];
    RunZeros(n, 7, p);
    RunZeros(n, 8, p);
    RunLoneBit(n, p);
    assert Reflect(Zeros(|p|), n) == Zeros(|p|);
  }

  lemma RunLoneBit(n: nat, p: Register)
    requires 0 < n <= |p|
    ensures Run(n, Zeros(|p|), [true], p) == BitEffect(n, p)
  {
    assert [true][..0] == [];
    assert Step(n, Zeros(|p|), true, p) == BitEffect(n, p);
  }

  /** Whatever the register holds, some byte sets a chosen bit that the divisor can carry into. */
  lemma SomeByteCarries(n: nat, s: Register, p: Register, j: nat) returns (b: Byte)
    requires 8 <= n <= j < |s| == |p| && BitEffect(n, p)[j]
    ensures ByteStep(n, s, b, p, true, false)[j]
  {
    hide Run, Entry, BitEffect;
    LoneBitEntry(n, p, j);
    var e: Byte := if Shr(s, 8)[j] then Zeros(8) else LoneBit();
    b := Xor(Resize(s, 8), e);
    XorCancels(Resize(s, 8), e);
    assert ByteStep(n, s, b, p, true, false) == Xor(Shr(s, 8), Entry(n, p, true, e));
  }

  /** All bits from place n up to, but not including, place j are zero. */
  predicate QuietBelow(n: nat, j: nat, x: Register) {
    forall i :: n <= i < j && i < |x| ==> !x[i]
  }

  lemma {:induction false} RunQuiet(n: nat, j: nat, r: Register, ms: seq<bool>, p: Register)
    requires 0 < n <= |r| == |p| && QuietBelow(n, j, BitEffect(n, p)) && QuietBelow(n, j, r)
    ensures QuietBelow(n, j, Run(n, r, ms, p))
    decreases |ms|
  {
    if |ms| > 0 {
      RunQuiet(n, j, r, ms[..|ms| - 1], p);
      StepQuiet(n, j, Run(n, r, ms[..|ms| - 1], p), ms[|ms| - 1], p);
    }
  }

  lemma StepQuiet(n: nat, j: nat, r: Register, bit: bool, p: Register)
    requires 0 < n <= |r| == |p| && QuietBelow(n, j, BitEffect(n, p)) && QuietBelow(n, j, r)
    ensures QuietBelow(n, j, Step(n, r, bit, p))
  {
    var q, s := r[n - 1] != bit, Step(n, r, bit, p);
    forall i | n <= i < j && i < |s|
      ensures !s[i]
    {
      assert !BitEffect(n, p)[i];
      assert s[i] == ((if i == n then q else r[i - 1]) != (q && p[i]));
    }
  }

  lemma EntryQuiet(n: nat, j: nat, p: Register, e: seq<bool>)
    requires 0 < n <= |p| && QuietBelow(n, j, BitEffect(n, p))
    ensures QuietBelow(n, j, Entry(n, p, true, e))
  {
    hide Run, BitEffect;
    var x := Run(n, Zeros(|p|), e, p);
    RunQuiet(n, j, Zeros(|p|), e, p);
    forall i | n <= i < j && i < |p|
      ensures !Entry(n, p, true, e)[i]
    {
      ReflectPlaces(x, n, i);
    }
  }

  lemma EntryLow(n: nat, p: Register, e: seq<bool>)
    requires 0 < n <= |p|
    ensures Entry(n, p, true, e)[..n] == Entry(n, p[..n], true, e)
  {
    RunLow(n, Zeros(|p|), e, p);
    assert Zeros(|p|)[..n] == Zeros(n);
  }

  /** A reflected step brings the bits from above the order down; a register without them has none to bring. */
  lemma CarriesComeDown(n: nat, s: Register, b: Byte, p: Register, i: nat)
    requires 8 <= n <= |s| == |p| && i < n
    ensures ByteStep(n, s, b, p, true, false)[i]
         == (ByteStep(n, s[..n], b, p[..n], true, false)[i] != (n <= i + 8 < |s| && s[i + 8]))
  {
    hide Run, Entry;
    assert Resize(s, 8) == Resize(s[..n], 8);
    var e := Xor(Resize(s, 8), b);
    EntryLow(n, p, e);
    assert ByteStep(n, s, b, p, true, false) == Xor(Shr(s, 8), Entry(n, p, true, e));
    assert ByteStep(n, s[..n], b, p[..n], true, false) == Xor(Shr(s[..n], 8), Entry(n, p[..n], true, e));
    assert Entry(n, p, true, e)[i] == Entry(n, p, true, e)[..n][i];
  }

  /** Above the order a step shifts the bits down and adds the carries of its table element. */
  lemma ByteStepAbove(n: nat, s: Register, b: Byte, p: Register, i: nat)
    requires 8 <= n <= i < |s| == |p|
    ensures exists e: Byte ::
      ByteStep(n, s, b, p, true, false)[i] == ((i + 8 < |s| && s[i + 8]) != Entry(n, p, true, e)[i])
  {
    hide Run, Entry;
    var e: Byte := Xor(Resize(s, 8), b);
    assert ByteStep(n, s, b, p, true, false) == Xor(Shr(s, 8), Entry(n, p, true, e));
  }

  lemma {:induction false} ByteStepQuiet(n: nat, j: nat, s: Register, b: Byte, p: Register)
    requires 8 <= n <= |s| == |p| && QuietBelow(n, j, BitEffect(n, p)) && QuietBelow(n, j, s)
    ensures j >= |s| ==> QuietBelow(n, j, ByteStep(n, s, b, p, true, false))
    ensures n + 8 <= j < |s| ==>
      var t := ByteStep(n, s, b, p, true, false);
      QuietBelow(n, j - 8, t) && t[j - 8] == s[j]
  {
    hide ByteStep, Entry, BitEffect;
    var t := ByteStep(n, s, b, p, true, false);
    forall i | n <= i < j && i < |s|
      ensures t[i] == (i + 8 < |s| && s[i + 8])
    {
      ByteStepAbove(n, s, b, p, i);
      var e: Byte :| t[i] == ((i + 8 < |s| && s[i + 8]) != Entry(n, p, true, e)[i]);
      EntryQuiet(n, j, p, e);
    }
  }

  // ----- Settings with carry bits

  lemma FeedOne(c: Params, s: Register, b: Byte)
    requires c.Valid() && |s| == |c.poly| && c.order >= 8 && c.reflectIn
    ensures OptimalFeed(c, s, [b]) == ByteStep(c.order, s, b, c.poly, true, false)
  {
    hide ByteStep;
    assert [b][..0] == [];
    assert ByteRun(c.order, s, [], c.poly, true, false) == s;
    assert ByteRun(c.order, s, [b], c.poly, true, false) == ByteStep(c.order, s, b, c.poly, true, false);
  }

  lemma BasicFeedConcat(c: Params, s: Register, a: seq<Byte>, b: seq<Byte>)
    requires c.Valid() && |s| == |c.poly|
    ensures BasicFeed(c, s, a + b) == BasicFeed(c, BasicFeed(c, s, a), b)
  {
    StreamConcat(a, b, c.reflectIn);
    RunConcat(c.order, s, Stream(a, c.reflectIn), Stream(b, c.reflectIn), c.poly);
  }

  lemma OptimalFeedConcat(c: Params, s: Register, a: seq<Byte>, b: seq<Byte>)
    requires c.Valid() && |s| == |c.poly|
    ensures OptimalFeed(c, s, a + b) == OptimalFeed(c, OptimalFeed(c, s, a), b)
  {
    UpdateConcat(c.order, s, a, b, c.poly, c.reflectIn, false);
  }

  /** A reflected register cut to its order does what the bitwise computer does. */
  lemma CutRegisterDivides(c: Params, s: Register, b: Byte)
    requires c.Valid() && |s| == |c.poly| && c.order >= 8 && c.reflectIn
    ensures Reverse(ByteStep(c.order, s[..c.order], b, c.poly[..c.order], true, false))
         == Run(c.order, Shown(c, s), Stream([b], true), c.poly[..c.order])
  {
    hide ByteStep, Run, Reverse;
    var n, t, p := c.order, s[..c.order], c.poly[..c.order];
    ReflectedRun(Reverse(t), [b], p, false);
    ReverseTwice(t);
    ReverseTwice(Run(n, Reverse(t), Stream([b], true), p));
    assert [b][..0] == [];
  }

  /** When one of the next 8 bits above the order is set, the next byte goes wrong. */
  lemma NextByteWrong(c: Params, s: Register, b: Byte, j: nat)
    requires c.Valid() && |s| == |c.poly| && 8 <= c.order <= j < |c.poly| && j < c.order + 8 && c.reflectIn
    requires s[j]
    ensures Shown(c, OptimalFeed(c, s, [b]))
         != Run(c.order, Shown(c, s), Stream([b], true), c.poly[..c.order])
  {
    hide ByteStep, Run, OptimalFeed;
    var n := c.order;
    FeedOne(c, s, b);
    CutRegisterDivides(c, s, b);
    CarriesComeDown(n, s, b, c.poly, j - 8);
    var wide, cut := ByteStep(n, s, b, c.poly, true, false), ByteStep(n, s[..n], b, c.poly[..n], true, false);
    assert wide[..n][j - 8] != cut[j - 8];
    assert Reverse(wide[..n])[n - 1 - (j - 8)] != Reverse(cut)[n - 1 - (j - 8)];
  }

  /** The lowest bit above the order sinks until it spoils the remainder. */
  lemma {:induction false} CarrySinks(c: Params, s: Register, j: nat) returns (data: seq<Byte>)
    requires c.Valid() && |s| == |c.poly| && 8 <= c.order <= j < |c.poly| && c.reflectIn
    requires s[j] && QuietBelow(c.order, j, s) && QuietBelow(c.order, j, BitEffect(c.order, c.poly))
    ensures Shown(c, OptimalFeed(c, s, data))
         != Run(c.order, Shown(c, s), Stream(data, true), c.poly[..c.order])
    decreases j
  {
    hide ByteStep, Run, OptimalFeed, Shown, Stream, BitEffect;
    var n, b: Byte := c.order, Zeros(8);
    data := [b];
    if j < n + 8 {
      NextByteWrong(c, s, b, j);
    } else {
      var t, p := OptimalFeed(c, s, data), c.poly[..n];
      if Shown(c, t) == Run(n, Shown(c, s), Stream(data, true), p) {
        FeedOne(c, s, b);
        ByteStepQuiet(n, j, s, b, c.poly);
        var rest := CarrySinks(c, t, j - 8);
        OptimalFeedConcat(c, s, data, rest);
        StreamConcat(data, rest, true);
        RunConcat(n, Shown(c, s), Stream(data, true), Stream(rest, true), p);
        data := data + rest;
      }
    }
  }

  lemma LowestAbove(n: nat, x: Register) returns (j: nat)
    requires !Truncated(n, x)
    ensures n <= j < |x| && x[j] && QuietBelow(n, j, x)
  {
    j := n;
    while !x[j]
      invariant n <= j < |x| && QuietBelow(n, j, x) && !Truncated(j, x)
      decreases |x| - j
    {
      j := j + 1;
    }
  }

  /** Any bit above the order leads to a wrong remainder, if the divisor carries no lower than that bit. */
  lemma {:induction false} DirtyRegisterFails(c: Params, s: Register, k: nat) returns (data: seq<Byte>)
    requires c.Valid() && |s| == |c.poly| && 8 <= c.order <= k < |c.poly| && c.reflectIn
    requires s[k] && QuietBelow(c.order, k, BitEffect(c.order, c.poly))
    ensures Shown(c, OptimalFeed(c, s, data))
         != Run(c.order, Shown(c, s), Stream(data, true), c.poly[..c.order])
  {
    hide Run, OptimalFeed, Shown, Stream, BitEffect;
    var j := LowestAbove(c.order, s);
    assert j <= k;
    data := CarrySinks(c, s, j);
  }

  lemma NoEffectAbove(n: nat, p: Register)
    requires 0 < n < |p|
    ensures Truncated(n, BitEffect(n, p)) <==> WithLeadingTerm(n, p)
  {
    var e := BitEffect(n, p);
    assert forall i :: n <= i < |p| ==> e[i] == ((i == n) != p[i]);
    if Truncated(n, e) {
      assert !e[n];
      forall i | n + 1 <= i < |p|
        ensures !p[i]
      {
        assert !e[i];
      }
    }
  }

  /** From a register that is not sound, some message gives a wrong remainder. */
  lemma {:induction false} UnsoundFails(c: Params, s: Register) returns (data: seq<Byte>)
    requires c.Valid() && |s| == |c.poly| && !Sound(c, s)
    ensures Shown(c, OptimalFeed(c, s, data))
         != Run(c.order, Shown(c, s), Stream(data, true), c.poly[..c.order])
  {
    hide Run, OptimalFeed, Shown, Stream, BitEffect;
    var n, p := c.order, c.poly;
    NoEffectAbove(n, p);
    if Truncated(n, BitEffect(n, p)) {
      var k := LowestAbove(n, s);
      data := DirtyRegisterFails(c, s, k);
    } else {
      var k := LowestAbove(n, BitEffect(n, p));
      var b := SomeByteCarries(n, s, p, k);
      data := [b];
      FeedOne(c, s, b);
      var t := OptimalFeed(c, s, data);
      if Shown(c, t) == Run(n, Shown(c, s), Stream(data, true), p[..n]) {
        var rest := DirtyRegisterFails(c, t, k);
        OptimalFeedConcat(c, s, data, rest);
        StreamConcat(data, rest, true);
        RunConcat(n, Shown(c, s), Stream(data, true), Stream(rest, true), p[..n]);
        data := data + rest;
      }
    }
  }

  // ----- Settings without

  lemma SoundByte(c: Params, s: Register, b: Byte)
    requires c.Valid() && |s| == |c.poly| && 8 <= c.order && c.reflectIn
    requires WithLeadingTerm(c.order, c.poly) && Truncated(c.order, s)
    ensures Truncated(c.order, ByteStep(c.order, s, b, c.poly, true, false))
    ensures ByteStep(c.order, s, b, c.poly, true, false)[..c.order]
         == ByteStep(c.order, s[..c.order], b, c.poly[..c.order], true, false)
  {
    hide ByteStep, BitEffect;
    var n, p := c.order, c.poly;
    NoEffectAbove(n, p);
    ByteStepQuiet(n, |p|, s, b, p);
    forall i | 0 <= i < n
      ensures ByteStep(n, s, b, p, true, false)[..n][i] == ByteStep(n, s[..n], b, p[..n], true, false)[i]
    {
      CarriesComeDown(n, s, b, p, i);
    }
  }

  lemma {:induction false} SoundBytes(c: Params, s: Register, data: seq<Byte>)
    requires c.Valid() && |s| == |c.poly| && 8 <= c.order && c.reflectIn
    requires WithLeadingTerm(c.order, c.poly) && Truncated(c.order, s)
    ensures Truncated(c.order, ByteRun(c.order, s, data, c.poly, true, false))
    ensures ByteRun(c.order, s, data, c.poly, true, false)[..c.order]
         == ByteRun(c.order, s[..c.order], data, c.poly[..c.order], true, false)
    decreases |data|
  {
    hide ByteStep;
    if |data| > 0 {
      var k := |data| - 1;
      SoundBytes(c, s, data[..k]);
      SoundByte(c, ByteRun(c.order, s, data[..k], c.poly, true, false), data[k]);
    }
  }

  /** From a sound register every message gives the right remainder and leaves a sound register. */
  lemma SoundFeeds(c: Params, s: Register, data: seq<Byte>)
    requires c.Valid() && |s| == |c.poly| && Sound(c, s)
    ensures Sound(c, OptimalFeed(c, s, data))
    ensures Shown(c, OptimalFeed(c, s, data))
         == Run(c.order, Shown(c, s), Stream(data, c.reflectIn), c.poly[..c.order])
  {
    hide Run, ByteRun;
    if c.Exactly() {
      OptimalMeaning(c, s, data);
    } else {
      var n := c.order;
      SoundBytes(c, s, data);
      ReflectedRun(Reverse(s[..n]), data, c.poly[..n], false);
      ReverseTwice(s[..n]);
      ReverseTwice(Run(n, Reverse(s[..n]), Stream(data, true), c.poly[..n]));
    }
  }

  lemma ChecksumsDiffer(c: Params, optimal: Register, basic: Register)
    requires c.Valid() && |optimal| == |basic| == |c.poly|
    requires Shown(c, optimal) != basic[..c.order]
    ensures OptimalChecksum(c, optimal) != BasicChecksum(c, basic)
  {
    OptimalShows(c, optimal);
    BasicShows(c, basic);
    if OptimalChecksum(c, optimal) == BasicChecksum(c, basic) {
      OutputInjective(c, Shown(c, optimal), basic[..c.order]);
    }
  }

  // ----- The main theorem

  ghost predicate AgreeOn(c: Params, r: Register, data: seq<Byte>)
    requires c.Valid() && |r| == |c.poly|
  {
    OptimalChecksum(c, OptimalFeed(c, OptimalStart(c, r), data)) == BasicChecksum(c, BasicFeed(c, r, data))
  }

  lemma {:induction false} AgreeIffRemainder(c: Params, r: Register, data: seq<Byte>)
    requires c.Valid() && |r| == |c.poly|
    ensures var start := OptimalStart(c, r);
      AgreeOn(c, r, data) <==>
      Shown(c, OptimalFeed(c, start, data))
      == Run(c.order, Shown(c, start), Stream(data, c.reflectIn), c.poly[..c.order])
  {
    hide Run, Shown, OptimalFeed, BasicFeed, OptimalChecksum, BasicChecksum, OptimalStart, Stream;
    var optimal, basic := OptimalFeed(c, OptimalStart(c, r), data), BasicFeed(c, r, data);
    StartShown(c, r);
    BasicFeedLow(c, r, data);
    OptimalShows(c, optimal);
    BasicShows(c, basic);
    if Shown(c, optimal) != basic[..c.order] {
      ChecksumsDiffer(c, optimal, basic);
    }
  }

  /**
    crc_optimal agrees with crc_basic on every message if and only if carries are
    harmless, whatever the parameters hold above the order.
   */
  lemma AgreementIffCarriesHarmless(c: Params, r: Register)
    requires c.Valid() && |r| == |c.poly|
    ensures (forall data :: AgreeOn(c, r, data)) <==> CarriesHarmless(c, r)
  {
    hide Run, Shown, OptimalFeed, AgreeOn, OptimalStart, CarriesHarmless, Sound, Stream;
    SoundStart(c, r);
    var start := OptimalStart(c, r);
    if Sound(c, start) {
      forall data
        ensures AgreeOn(c, r, data)
      {
        SoundFeeds(c, start, data);
        AgreeIffRemainder(c, r, data);
      }
    } else {
      var data := UnsoundFails(c, start);
      UnsoundReflects(c, start);
      AgreeIffRemainder(c, r, data);
    }
  }

  /** Under that condition the interim remainders agree as well. */
  lemma InterimsAgree(c: Params, r: Register, data: seq<Byte>)
    requires c.Valid() && |r| == |c.poly| && CarriesHarmless(c, r)
    ensures OptimalInterim(c, OptimalFeed(c, OptimalStart(c, r), data)) == BasicInterim(c, BasicFeed(c, r, data))
  {
    hide Run, Shown, OptimalFeed, BasicFeed, OptimalInterim, BasicInterim, OptimalStart, CarriesHarmless, Sound, Stream;
    SoundStart(c, r);
    SoundFeeds(c, OptimalStart(c, r), data);
    StartShown(c, r);
    BasicFeedLow(c, r, data);
    OptimalShows(c, OptimalFeed(c, OptimalStart(c, r), data));
    BasicShows(c, BasicFeed(c, r, data));
  }

  lemma UnsoundReflects(c: Params, s: Register)
    requires !Sound(c, s)
    ensures c.reflectIn
  {
  }

  /** For parameters that keep to the order, these are exactly the exact settings. */
  lemma {:induction false} AgreementIffExact(c: Params, r: Register)
    requires c.Valid() && |r| == |c.poly| && Truncated(c.order, c.poly)
    ensures (forall data :: AgreeOn(c, r, data)) <==> c.Exactly()
  {
    hide AgreeOn, Exact;
    AgreementIffCarriesHarmless(c, r);
  }

  // ----- Interrupt and resume

  /** Handing the interim remainder to a fresh bitwise computer loses nothing. */
  lemma BasicResumes(c: Params, rem: Register, rest: seq<Byte>)
    requires c.Valid() && |rem| == |c.poly|
    ensures BasicChecksum(c, BasicFeed(c, BasicInterim(c, rem), rest)) == BasicChecksum(c, BasicFeed(c, rem, rest))
  {
    hide Run;
    BasicShows(c, rem);
    assert BasicInterim(c, rem)[..c.order] == rem[..c.order];
    BasicMeaning(c, rem, rest);
    BasicMeaning(c, BasicInterim(c, rem), rest);
  }

  /** A computer started from r, interrupted after `before`, resumed by another one for `after`. */
  ghost predicate ResumesOn(c: Params, r: Register, before: seq<Byte>, after: seq<Byte>)
    requires c.Valid() && |r| == |c.poly|
  {
    var rem := OptimalFeed(c, OptimalStart(c, r), before);
    OptimalChecksum(c, OptimalFeed(c, OptimalStart(c, OptimalInterim(c, rem)), after))
    == OptimalChecksum(c, OptimalFeed(c, rem, after))
  }

  /** The resumed register shows the same remainder, but has no bits above the order. */
  lemma ResumedRegister(c: Params, rem: Register)
    requires c.Valid() && |rem| == |c.poly|
    ensures var again := OptimalStart(c, OptimalInterim(c, rem));
            Shown(c, again) == Shown(c, rem) && again[..c.order] == rem[..c.order] && Truncated(c.order, again)
  {
    var n, interim := c.order, OptimalInterim(c, rem);
    OptimalShows(c, rem);
    StartShown(c, interim);
    assert interim[..n] == Shown(c, rem);
    ReflectQLow(n, interim, c.reflectIn);
    ReverseTwice(rem[..n]);
    var again := OptimalStart(c, interim);
    assert c.reflectIn && n > 8 ==>
      forall i :: n <= i < |again| ==> again[i] == again[n..][i - n] && interim[i] == interim[n..][i - n];
  }

  lemma ResumesWhenSound(c: Params, r: Register, before: seq<Byte>, after: seq<Byte>)
    requires c.Valid() && |r| == |c.poly| && CarriesHarmless(c, r)
    ensures var rem := OptimalFeed(c, OptimalStart(c, r), before);
            OptimalChecksum(c, OptimalFeed(c, OptimalStart(c, OptimalInterim(c, rem)), after))
            == OptimalChecksum(c, OptimalFeed(c, rem, after))
    ensures ResumesOn(c, r, before, after)
  {
    hide Shown, OptimalFeed, OptimalChecksum, OptimalStart, OptimalInterim, Exact, Run, CarriesHarmless;
    SoundStart(c, r);
    SoundFeeds(c, OptimalStart(c, r), before);
    var rem := OptimalFeed(c, OptimalStart(c, r), before);
    var again := OptimalStart(c, OptimalInterim(c, rem));
    ResumedRegister(c, rem);
    SoundFeeds(c, rem, after);
    SoundFeeds(c, again, after);
    OptimalShows(c, OptimalFeed(c, rem, after));
    OptimalShows(c, OptimalFeed(c, again, after));
  }

  /** Two registers that differ only above the order: the difference sinks, untouched by the table. */
  lemma {:induction false} DifferenceSinks(c: Params, s: Register, t: Register, j: nat) returns (data: seq<Byte>)
    requires c.Valid() && |s| == |t| == |c.poly| && 8 <= c.order <= j < |c.poly| && c.reflectIn
    requires s[..c.order] == t[..c.order] && s[j] != t[j]
    ensures Shown(c, OptimalFeed(c, s, data)) != Shown(c, OptimalFeed(c, t, data))
    decreases j
  {
    hide ByteStep, OptimalFeed;
    var n, b: Byte := c.order, Zeros(8);
    data := [b];
    var s', t' := OptimalFeed(c, s, data), OptimalFeed(c, t, data);
    FeedOne(c, s, b);
    FeedOne(c, t, b);
    StepOfEqualLow(n, s, t, b, c.poly);
    if j < n + 8 {
      assert s'[..n][j - 8] != t'[..n][j - 8];
    }
    if s'[..n] != t'[..n] {
      ReverseTwice(s'[..n]);
      ReverseTwice(t'[..n]);
    } else {
      var rest := DifferenceSinks(c, s', t', j - 8);
      OptimalFeedConcat(c, s, data, rest);
      OptimalFeedConcat(c, t, data, rest);
      data := data + rest;
    }
  }

  lemma StepOfEqualLow(n: nat, s: Register, t: Register, b: Byte, p: Register)
    requires 8 <= n <= |s| == |t| == |p| && s[..n] == t[..n]
    ensures forall i :: 0 <= i && i + 8 < |s| ==>
      ((ByteStep(n, s, b, p, true, false)[i] != ByteStep(n, t, b, p, true, false)[i]) <==> s[i + 8] != t[i + 8])
  {
    hide Run, Entry;
    assert Resize(s, 8) == Resize(s[..n], 8) == Resize(t[..n], 8) == Resize(t, 8);
    var e := Entry(n, p, true, Xor(Resize(s, 8), b));
    assert ByteStep(n, s, b, p, true, false) == Xor(Shr(s, 8), e);
    assert ByteStep(n, t, b, p, true, false) == Xor(Shr(t, 8), e);
  }

  /** Some input leaves bits above the order in the register. */
  lemma GetsDirty(c: Params, s: Register) returns (data: seq<Byte>)
    requires c.Valid() && |s| == |c.poly| && !Sound(c, s)
    ensures !Truncated(c.order, OptimalFeed(c, s, data))
  {
    hide OptimalFeed, BitEffect, ByteStep;
    var n, p := c.order, c.poly;
    NoEffectAbove(n, p);
    if Truncated(n, BitEffect(n, p)) {
      FeedNothingDirect(c, s);
      data := [];
    } else {
      var k := LowestAbove(n, BitEffect(n, p));
      var b := SomeByteCarries(n, s, p, k);
      FeedOne(c, s, b);
      data := [b];
    }
  }

  lemma FeedNothingDirect(c: Params, s: Register)
    requires c.Valid() && |s| == |c.poly| && c.order >= 8
    ensures OptimalFeed(c, s, []) == s
  {
    assert ByteRun(c.order, s, [], c.poly, c.reflectIn, false) == s;
  }

  /** A table-driven computation may be interrupted and resumed anywhere if and only if carries are harmless. */
  lemma ResumptionIffCarriesHarmless(c: Params, r: Register)
    requires c.Valid() && |r| == |c.poly|
    ensures (forall before, after :: ResumesOn(c, r, before, after)) <==> CarriesHarmless(c, r)
  {
    hide Shown, OptimalFeed, OptimalChecksum, OptimalStart, OptimalInterim, CarriesHarmless, Exact;
    if CarriesHarmless(c, r) {
      forall before, after
        ensures ResumesOn(c, r, before, after)
      {
        ResumesWhenSound(c, r, before, after);
      }
    } else {
      var start := OptimalStart(c, r);
      SoundStart(c, r);
      ExactMeans(c);
      var before := GetsDirty(c, start);
      var rem := OptimalFeed(c, start, before);
      var again := OptimalStart(c, OptimalInterim(c, rem));
      ResumedRegister(c, rem);
      var j := LowestAbove(c.order, rem);
      var after := DifferenceSinks(c, rem, again, j);
      OptimalShows(c, OptimalFeed(c, rem, after));
      OptimalShows(c, OptimalFeed(c, again, after));
      if ResumesOn(c, r, before, after) {
        OutputInjective(c, Shown(c, OptimalFeed(c, rem, after)), Shown(c, OptimalFeed(c, again, after)));
      }
    }
  }

  lemma ExactMeans(c: Params)
    requires c.Valid()
    ensures !c.Exactly() ==> c.reflectIn && 8 <= c.order < |c.poly|
  {
  }
}
