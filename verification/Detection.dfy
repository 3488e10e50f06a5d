/** Which changes of a message a checksum is sure to show, and how checksums add up. */
module Detection {
  import opened Registers
  import opened Division
  import opened Reflection
  import opened Dividers
  import opened Tables
  import opened Drivers
  import opened Formula
  import opened Agreement

  // ----- Bursts

  /** Two different strings of equal length that agree outside k consecutive bits. */
  ghost predicate DifferByBurst(v: seq<bool>, w: seq<bool>, k: nat) {
    |v| == |w| && v != w && exists start: nat, end: nat :: BurstWithin(v, w, start, end) && end <= start + k
  }

  ghost predicate BurstWithin(v: seq<bool>, w: seq<bool>, start: nat, end: nat) {
    && start <= end <= |v| == |w|
    && v[..start] == w[..start]
    && v[end..] == w[end..]
  }

  /** A burst, place by place: no two differing places are k or more apart. */
  lemma {:induction false} BurstMeans(v: seq<bool>, w: seq<bool>, k: nat)
    ensures DifferByBurst(v, w, k) <==>
      && |v| == |w| && v != w
      && forall i: nat, j: nat :: i < |v| && j < |v| && v[i] != w[i] && v[j] != w[j] ==> j < i + k
  {
    if DifferByBurst(v, w, k) {
      var start: nat, end: nat :| BurstWithin(v, w, start, end) && end <= start + k;
      assert forall i :: 0 <= i < start ==> v[i] == v[..start][i] == w[..start][i] == w[i];
      assert forall i :: end <= i < |v| ==> v[i] == v[end..][i - end] == w[end..][i - end] == w[i];
    } else if |v| == |w| && v != w {
      var i := FirstDifference(v, w);
      var end := if i + k <= |v| then i + k else |v|;
      if forall j: nat :: i <= j < |v| && v[j] != w[j] ==> j < i + k {
        assert BurstWithin(v, w, i, end) by {
          assert forall j :: end <= j < |v| ==> v[j] == w[j];
        }
      }
    }
  }

  lemma {:induction false} FirstDifference(v: seq<bool>, w: seq<bool>) returns (i: nat)
    requires |v| == |w| && v != w
    ensures i < |v| && v[i] != w[i] && v[..i] == w[..i]
  {
    i := 0;
    while v[i] == w[i]
      invariant i < |v| && v[..i] == w[..i] && v[i..] != w[i..]
      decreases |v| - i
    {
      assert v[i..] == [v[i]] + v[i + 1..] && w[i..] == [w[i]] + w[i + 1..];
      i := i + 1;
    }
  }

  lemma RemainderParts(c: Params, r: Register, a: seq<bool>, b: seq<bool>, d: seq<bool>)
    requires c.Valid() && |r| == |c.poly|
    ensures Remainder(c, r, a + b + d)
         == Run(c.order, Run(c.order, Remainder(c, r, a), b, c.poly[..c.order]), d, c.poly[..c.order])
  {
    RunConcat(c.order, r[..c.order], a + b, d, c.poly[..c.order]);
    RunConcat(c.order, r[..c.order], a, b, c.poly[..c.order]);
  }

  /** With an odd polynomial no burst of at most n bits goes unseen. */
  lemma BurstSeen(c: Params, r: Register, v: seq<bool>, w: seq<bool>)
    requires c.Valid() && |r| == |c.poly| && c.poly[0]
    requires DifferByBurst(v, w, c.order)
    ensures Remainder(c, r, v) != Remainder(c, r, w)
  {
    hide Run, Remainder;
    var start: nat, end: nat :| BurstWithin(v, w, start, end) && end <= start + c.order;
    var s, p := Remainder(c, r, v[..start]), c.poly[..c.order];
    assert v == v[..start] + v[start..end] + v[end..];
    assert w == w[..start] + w[start..end] + w[end..];
    RemainderParts(c, r, v[..start], v[start..end], v[end..]);
    RemainderParts(c, r, w[..start], w[start..end], w[end..]);
    ShortRunsDiffer(s, v[start..end], w[start..end], p);
    if Remainder(c, r, v) == Remainder(c, r, w) {
      RunInjective(Run(c.order, s, v[start..end], p), Run(c.order, s, w[start..end], p), v[end..], p);
    }
  }

  /** The coefficients of (divisor / x), the highest first. */
  function SilentBurst(p: Register): (w: seq<bool>)
    requires 0 < |p|
    ensures |w| == |p|
  {
    [true] + Top(p, |p| - 1)
  }

  /** With an even polynomial the burst (divisor / x) leaves every remainder as it was. */
  lemma SilentFromAnywhere(s: Register, p: Register)
    requires 0 < |s| == |p| && !p[0]
    ensures Run(|p|, s, SilentBurst(p), p) == Run(|p|, s, Zeros(|p|), p)
  {
    hide Run, Top;
    var n, zeros, w := |p|, Zeros(|p|), SilentBurst(p);
    EvenDivisorSilent(p);
    XorZeros(s);
    XorZeros(zeros);
    XorZeros(w);
    RunLinear(n, zeros, s, zeros, zeros, p);
    RunLinear(n, zeros, s, w, zeros, p);
  }

  /** k zero bits before the burst, or before as many zero bits, change nothing. */
  lemma BurstUnseen(c: Params, r: Register, k: nat) returns (v: seq<bool>, w: seq<bool>)
    requires c.Valid() && |r| == |c.poly| && !c.poly[0]
    ensures |v| == |w| == k + c.order
    ensures DifferByBurst(v, w, c.order) && Remainder(c, r, v) == Remainder(c, r, w)
  {
    hide Run;
    var n, p := c.order, c.poly[..c.order];
    v, w := Zeros(k) + Zeros(n), Zeros(k) + SilentBurst(p);
    assert !v[k] && w[k];
    assert BurstWithin(v, w, k, k + n) by {
      assert v[..k] == Zeros(k) == w[..k];
      assert v[k + n..] == [] == w[k + n..];
    }
    RunConcat(n, r[..n], Zeros(k), Zeros(n), p);
    RunConcat(n, r[..n], Zeros(k), SilentBurst(p), p);
    SilentFromAnywhere(Run(n, r[..n], Zeros(k), p), p);
  }

  /** All bursts of up to n consecutive bits are seen if and only if the polynomial has its constant term. */
  lemma BurstsSeenIffOdd(c: Params, r: Register)
    requires c.Valid() && |r| == |c.poly|
    ensures c.poly[0] <==>
      forall v, w :: DifferByBurst(v, w, c.order) ==> Output(c, Remainder(c, r, v)) != Output(c, Remainder(c, r, w))
  {
    hide Run, Remainder, Output;
    if c.poly[0] {
      forall v, w | DifferByBurst(v, w, c.order)
        ensures Output(c, Remainder(c, r, v)) != Output(c, Remainder(c, r, w))
      {
        BurstSeen(c, r, v, w);
        if Output(c, Remainder(c, r, v)) == Output(c, Remainder(c, r, w)) {
          OutputInjective(c, Remainder(c, r, v), Remainder(c, r, w));
        }
      }
    } else {
      var v, w := BurstUnseen(c, r, 0);
      assert DifferByBurst(v, w, c.order) && Output(c, Remainder(c, r, v)) == Output(c, Remainder(c, r, w));
    }
  }

  /** The byte message with the given bits in reading order. */
  function Packed(ms: seq<bool>, reflect: bool): (data: seq<Byte>)
    requires |ms| % 8 == 0
    decreases |ms|
  {
    if |ms| == 0 then []
    else
      var last: Byte := ms[|ms| - 8..];
      var b: Byte := if reflect then last else Reverse(last);
      Packed(ms[..|ms| - 8], reflect) + [b]
  }

  /** The byte whose bits are read in the given order. */
  lemma PackedByte(last: Byte, reflect: bool)
    ensures WordStream(if reflect then last else Reverse(last), 8, reflect) == last
  {
    assert last[..8] == last && Reverse(last)[..8] == Reverse(last);
    ReverseTwice(last);
  }

  lemma StreamOneMore(data: seq<Byte>, b: Byte, reflect: bool)
    ensures Stream(data + [b], reflect) == Stream(data, reflect) + WordStream(b, 8, reflect)
  {
    assert (data + [b])[..|data|] == data;
  }

  lemma {:induction false} PackedStream(ms: seq<bool>, reflect: bool)
    requires |ms| % 8 == 0
    ensures Stream(Packed(ms, reflect), reflect) == ms
    decreases |ms|
  {
    hide Stream, WordStream, Reverse;
    if |ms| > 0 {
      var init, last: Byte := ms[..|ms| - 8], ms[|ms| - 8..];
      var b: Byte := if reflect then last else Reverse(last);
      PackedStream(init, reflect);
      PackedByte(last, reflect);
      StreamOneMore(Packed(init, reflect), b, reflect);
      assert init + last == ms;
    } else {
      EmptyStream(reflect);
    }
  }

  lemma EmptyStream(reflect: bool)
    ensures Stream([], reflect) == []
  {
  }

  ghost predicate BytesDifferByBurst(c: Params, a: seq<Byte>, b: seq<Byte>) {
    DifferByBurst(Stream(a, c.reflectIn), Stream(b, c.reflectIn), c.order)
  }

  ghost predicate BasicTellsApart(c: Params, r: Register, a: seq<Byte>, b: seq<Byte>)
    requires c.Valid() && |r| == |c.poly|
  {
    BasicChecksum(c, BasicFeed(c, r, a)) != BasicChecksum(c, BasicFeed(c, r, b))
  }

  ghost predicate OptimalTellsApart(c: Params, r: Register, a: seq<Byte>, b: seq<Byte>)
    requires c.Valid() && |r| == |c.poly|
  {
    OptimalChecksum(c, OptimalFeed(c, OptimalStart(c, r), a))
    != OptimalChecksum(c, OptimalFeed(c, OptimalStart(c, r), b))
  }

  /** The checksums of byte messages differ just when the remainders of their bits do. */
  lemma TellApartByRemainder(c: Params, r: Register, a: seq<Byte>, b: seq<Byte>)
    requires c.Valid() && |r| == |c.poly|
    ensures BasicTellsApart(c, r, a, b)
       <==> Remainder(c, r, Stream(a, c.reflectIn)) != Remainder(c, r, Stream(b, c.reflectIn))
    ensures CarriesHarmless(c, r) ==> (OptimalTellsApart(c, r, a, b) <==> BasicTellsApart(c, r, a, b))
  {
    hide Run, Remainder, Output, BasicChecksum, BasicFeed, Stream, CarriesHarmless;
    hide OptimalChecksum, OptimalFeed, OptimalStart;
    var s, t := Remainder(c, r, Stream(a, c.reflectIn)), Remainder(c, r, Stream(b, c.reflectIn));
    BasicMeaning(c, r, a);
    BasicMeaning(c, r, b);
    if Output(c, s) == Output(c, t) {
      OutputInjective(c, s, t);
    }
    if CarriesHarmless(c, r) {
      AgreementIffCarriesHarmless(c, r);
      assert AgreeOn(c, r, a) && AgreeOn(c, r, b);
    }
  }

  /** An even polynomial leaves a burst unseen between byte messages too, whatever the order. */
  lemma ByteBurstUnseen(c: Params, r: Register) returns (a: seq<Byte>, b: seq<Byte>)
    requires c.Valid() && |r| == |c.poly| && !c.poly[0]
    ensures BytesDifferByBurst(c, a, b) && !BasicTellsApart(c, r, a, b)
  {
    hide Run, Remainder, DifferByBurst, BasicTellsApart, OptimalTellsApart, CarriesHarmless;
    var v, w := BurstUnseen(c, r, (8 - c.order % 8) % 8);
    a, b := Packed(v, c.reflectIn), Packed(w, c.reflectIn);
    PackedStream(v, c.reflectIn);
    PackedStream(w, c.reflectIn);
    TellApartByRemainder(c, r, a, b);
  }

  /**
    Byte messages: every burst of up to n bits in reading order changes the checksum if and
    only if the polynomial is odd, for crc_basic, and for crc_optimal where carries are harmless.
   */
  lemma {:induction false} ByteBurstsSeenIffOdd(c: Params, r: Register)
    requires c.Valid() && |r| == |c.poly|
    ensures c.poly[0] <==> forall a, b :: BytesDifferByBurst(c, a, b) ==> BasicTellsApart(c, r, a, b)
    ensures CarriesHarmless(c, r) ==>
      (c.poly[0] <==> forall a, b :: BytesDifferByBurst(c, a, b) ==> OptimalTellsApart(c, r, a, b))
  {
    hide Run, Remainder, Stream, DifferByBurst, BasicTellsApart, OptimalTellsApart, CarriesHarmless;
    if c.poly[0] {
      forall a, b | BytesDifferByBurst(c, a, b)
        ensures BasicTellsApart(c, r, a, b)
        ensures CarriesHarmless(c, r) ==> OptimalTellsApart(c, r, a, b)
      {
        BurstSeen(c, r, Stream(a, c.reflectIn), Stream(b, c.reflectIn));
        TellApartByRemainder(c, r, a, b);
      }
    } else {
      var a, b := ByteBurstUnseen(c, r);
      TellApartByRemainder(c, r, a, b);
    }
  }

  // ----- Affinity

  function XorData(a: seq<Byte>, b: seq<Byte>): (d: seq<Byte>)
    requires |a| == |b|
    ensures |d| == |a|
  {
    seq(|a|, i requires 0 <= i < |a| => Xor(a[i], b[i]))
  }

  lemma {:induction false} StreamXor(a: seq<Byte>, b: seq<Byte>, reflect: bool)
    requires |a| == |b|
    ensures Stream(XorData(a, b), reflect) == Xor(Stream(a, reflect), Stream(b, reflect))
    decreases |a|
  {
    if |a| > 0 {
      var k := |a| - 1;
      StreamXor(a[..k], b[..k], reflect);
      assert XorData(a, b)[..k] == XorData(a[..k], b[..k]);
      WordStreamXor(a[k], b[k], reflect);
      XorConcat(Stream(a[..k], reflect), WordStream(a[k], 8, reflect),
                Stream(b[..k], reflect), WordStream(b[k], 8, reflect));
    } else {
      assert XorData(a, b) == [] && Xor([], []) == [];
    }
  }

  lemma WordStreamXor(a: Byte, b: Byte, reflect: bool)
    ensures WordStream(Xor(a, b), 8, reflect) == Xor(WordStream(a, 8, reflect), WordStream(b, 8, reflect))
  {
    assert a[..8] == a && b[..8] == b && Xor(a, b)[..8] == Xor(a, b);
    ReverseXor(a, b);
  }

  lemma ShiftsXor(r: Register, s: Register, k: nat)
    requires |r| == |s|
    ensures Shl(Xor(r, s), k) == Xor(Shl(r, k), Shl(s, k))
    ensures Shr(Xor(r, s), k) == Xor(Shr(r, k), Shr(s, k))
    ensures Resize(Xor(r, s), k) == Xor(Resize(r, k), Resize(s, k))
  {
  }

  lemma {:induction false} ByteStepLinear(n: nat, r: Register, s: Register, a: Byte, b: Byte, p: Register,
                                          reflect: bool)
    requires 8 <= n <= |r| == |s| == |p|
    ensures ByteStep(n, Xor(r, s), Xor(a, b), p, reflect, false)
         == Xor(ByteStep(n, r, a, p, reflect, false), ByteStep(n, s, b, p, reflect, false))
  {
    hide Run, Entry, Xor, Shl, Shr, Resize;
    ShiftsXor(r, s, 8);
    ShiftsXor(r, s, n - 8);
    ShiftsXor(Shr(r, n - 8), Shr(s, n - 8), 8);
    var lr := if reflect then Resize(r, 8) else LeadingByte(n, r);
    var ls := if reflect then Resize(s, 8) else LeadingByte(n, s);
    XorInterchange(lr, ls, a, b);
    EntryLinear(n, p, reflect, Xor(lr, a), Xor(ls, b));
    var hr := if reflect then Shr(r, 8) else Shl(r, 8);
    var hs := if reflect then Shr(s, 8) else Shl(s, 8);
    XorInterchange(hr, hs, Entry(n, p, reflect, Xor(lr, a)), Entry(n, p, reflect, Xor(ls, b)));
  }

  lemma {:induction false} ByteRunLinear(n: nat, r: Register, s: Register, a: seq<Byte>, b: seq<Byte>,
                                         p: Register, reflect: bool)
    requires 8 <= n <= |r| == |s| == |p| && |a| == |b|
    ensures ByteRun(n, Xor(r, s), XorData(a, b), p, reflect, false)
         == Xor(ByteRun(n, r, a, p, reflect, false), ByteRun(n, s, b, p, reflect, false))
    decreases |a|
  {
    hide ByteStep, Xor;
    if |a| > 0 {
      var k := |a| - 1;
      ByteRunLinear(n, r, s, a[..k], b[..k], p, reflect);
      assert XorData(a, b)[..k] == XorData(a[..k], b[..k]);
      var r', s' := ByteRun(n, r, a[..k], p, reflect, false), ByteRun(n, s, b[..k], p, reflect, false);
      ByteStepLinear(n, r', s', a[k], b[k], p, reflect);
    }
  }

  /** Register, data and result of either computer add up, carry bits included, in every setting. */
  lemma FeedsLinear(c: Params, r: Register, s: Register, a: seq<Byte>, b: seq<Byte>)
    requires c.Valid() && |r| == |s| == |c.poly| && |a| == |b|
    ensures BasicFeed(c, Xor(r, s), XorData(a, b)) == Xor(BasicFeed(c, r, a), BasicFeed(c, s, b))
    ensures OptimalFeed(c, Xor(r, s), XorData(a, b)) == Xor(OptimalFeed(c, r, a), OptimalFeed(c, s, b))
  {
    hide Run, ByteRun, ReflectQ, Stream, Xor;
    var n, reflect := c.order, c.reflectIn;
    StreamXor(a, b, reflect);
    RunLinear(n, r, s, Stream(a, reflect), Stream(b, reflect), c.poly);
    if n >= 8 {
      ByteRunLinear(n, r, s, a, b, c.poly, reflect);
    } else {
      var r', s' := ReflectQ(n, r, reflect), ReflectQ(n, s, reflect);
      ReflectQXor(n, r, s, reflect);
      RunLinear(n, r', s', Stream(a, reflect), Stream(b, reflect), c.poly);
      ReflectQXor(n, Run(n, r', Stream(a, reflect), c.poly), Run(n, s', Stream(b, reflect), c.poly), reflect);
    }
  }

  function Xor3(a: Register, b: Register, d: Register): (r: Register)
    requires |a| == |b| == |d|
    ensures |r| == |a|
  {
    Xor(Xor(a, b), d)
  }

  lemma Xor3Same(a: Register)
    ensures Xor3(a, a, a) == a
  {
  }

  /** `possibly reflect, xor, mask` is affine. */
  lemma {:induction false} OutputsAffine(c: Params, r: Register, s: Register, t: Register)
    requires c.Valid() && |r| == |s| == |t| == |c.poly|
    ensures BasicChecksum(c, Xor3(r, s, t)) == Xor3(BasicChecksum(c, r), BasicChecksum(c, s), BasicChecksum(c, t))
    ensures OptimalChecksum(c, Xor3(r, s, t))
         == Xor3(OptimalChecksum(c, r), OptimalChecksum(c, s), OptimalChecksum(c, t))
  {
    hide Xor, ReflectQ, Reflect;
    ReflectXor(r, s, c.order);
    ReflectXor(Xor(r, s), t, c.order);
    var turn := c.reflectRem != c.reflectIn;
    ReflectQXor(c.order, r, s, turn);
    ReflectQXor(c.order, Xor(r, s), t, turn);
    var mask := LowMask(|r|, c.order);
    if c.reflectRem {
      MaskedAffine(Reflect(r, c.order), Reflect(s, c.order), Reflect(t, c.order), c.final, mask);
    } else {
      MaskedAffine(r, s, t, c.final, mask);
    }
    MaskedAffine(ReflectQ(c.order, r, turn), ReflectQ(c.order, s, turn), ReflectQ(c.order, t, turn), c.final, mask);
  }

  lemma MaskedAffine(a: Register, b: Register, d: Register, f: Register, m: Register)
    requires |a| == |b| == |d| == |f| == |m|
    ensures And(Xor(Xor3(a, b, d), f), m) == Xor3(And(Xor(a, f), m), And(Xor(b, f), m), And(Xor(d, f), m))
  {
  }

  /** The checksum of the xor of three messages of one length is the xor of their checksums. */
  lemma ChecksumsAffine(c: Params, r: Register, x: seq<Byte>, y: seq<Byte>, z: seq<Byte>)
    requires c.Valid() && |r| == |c.poly| && |x| == |y| == |z|
    ensures BasicChecksum(c, BasicFeed(c, r, XorData(XorData(x, y), z)))
         == Xor3(BasicChecksum(c, BasicFeed(c, r, x)),
                 BasicChecksum(c, BasicFeed(c, r, y)),
                 BasicChecksum(c, BasicFeed(c, r, z)))
    ensures OptimalChecksum(c, OptimalFeed(c, r, XorData(XorData(x, y), z)))
         == Xor3(OptimalChecksum(c, OptimalFeed(c, r, x)),
                 OptimalChecksum(c, OptimalFeed(c, r, y)),
                 OptimalChecksum(c, OptimalFeed(c, r, z)))
  {
    hide BasicChecksum, BasicFeed, OptimalChecksum, OptimalFeed, XorData, Xor;
    Xor3Same(r);
    FeedsLinear(c, r, r, x, y);
    FeedsLinear(c, Xor(r, r), r, XorData(x, y), z);
    OutputsAffine(c, BasicFeed(c, r, x), BasicFeed(c, r, y), BasicFeed(c, r, z));
    OutputsAffine(c, OptimalFeed(c, r, x), OptimalFeed(c, r, y), OptimalFeed(c, r, z));
  }
}
