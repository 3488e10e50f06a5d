/** The byte-fed drivers: table-driven from 8 bits up, bit by bit below. */
module Drivers {
  import opened Registers
  import opened Division
  import opened Reflection
  import opened Dividers
  import opened Tables

  /** The bits of a message in the order in which they are divided. */
  function Stream(data: seq<Byte>, reflect: bool): (ms: seq<bool>)
    ensures |ms| == 8 * |data|
  {
    if |data| == 0 then []
    else Stream(data[..|data| - 1], reflect) + WordStream(data[|data| - 1], 8, reflect)
  }

  function Divide(n: nat, r: Register, ms: seq<bool>, p: Register, augmented: bool): (r': Register)
    requires 0 < n <= |r| == |p|
    ensures |r'| == |r|
  {
    if augmented then AugRun(n, r, ms, p) else Run(n, r, ms, p)
  }

  // ----- One byte by table

  function LeadingByte(n: nat, r: Register): (b: Byte)
    requires 8 <= n <= |r|
  {
    Resize(Shr(r, n - 8), 8)
  }

  function ByteStep(n: nat, r: Register, b: Byte, p: Register, reflect: bool, augmented: bool): (r': Register)
    requires 8 <= n <= |r| == |p|
    ensures |r'| == |r|
  {
    var lead := if reflect then Resize(r, 8) else LeadingByte(n, r);
    var shifted := if reflect then Shr(r, 8) else Shl(r, 8);
    var incoming := if reflect then Shl(Resize(b, |r|), n - 8) else Resize(b, |r|);
    if augmented then Xor(Or(shifted, incoming), Entry(n, p, reflect, lead))
    else Xor(shifted, Entry(n, p, reflect, Xor(lead, b)))
  }

  function ByteRun(n: nat, r: Register, data: seq<Byte>, p: Register, reflect: bool, augmented: bool): (r': Register)
    requires 8 <= n <= |r| == |p|
    ensures |r'| == |r|
  {
    if |data| == 0 then r
    else ByteStep(n, ByteRun(n, r, data[..|data| - 1], p, reflect, augmented), data[|data| - 1], p, reflect, augmented)
  }

  /** crc_driver: both drivers, chosen by the order. */
  function Update(n: nat, r: Register, data: seq<Byte>, p: Register, reflect: bool, augmented: bool): (r': Register)
    requires 0 < n <= |r| == |p|
    ensures |r'| == |r|
  {
    if n < 8 then
      ReflectQ(n, Divide(n, ReflectQ(n, r, reflect), Stream(data, reflect), p, augmented), reflect)
    else
      ByteRun(n, r, data, p, reflect, augmented)
  }

  // ----- A direct table-driven byte is eight division steps

  lemma DirectIndex(r: Register, b: Byte)
    requires 8 <= |r|
    ensures Reverse(LeadingByte(|r|, r)) == Top(r, 8)
    ensures Reverse(Xor(LeadingByte(|r|, r), b)) == Xor(Top(r, 8), Reverse(b))
    ensures WordStream(b, 8, false) == Reverse(b) && WordStream(b, 8, true) == b
  {
    assert b[..8] == b;
  }

  lemma OrDisjoint(r: Register, b: Byte)
    requires 8 <= |r|
    ensures Or(Shl(r, 8), Resize(b, |r|)) == Xor(Shl(r, 8), Resize(b, |r|))
    ensures Resize(Reverse(Reverse(b)), |r|) == Resize(b, |r|)
  {
    ReverseTwice(b);
  }

  lemma XorSwap(a: Register, b: Register, c: Register)
    requires |a| == |b| == |c|
    ensures Xor(Xor(a, b), c) == Xor(Xor(a, c), b)
  {
  }

  lemma DirectByte(r: Register, b: Byte, p: Register, augmented: bool)
    requires 8 <= |r| == |p|
    ensures ByteStep(|r|, r, b, p, false, augmented)
         == Divide(|r|, r, WordStream(b, 8, false), p, augmented)
  {
    hide Run, AugRun, Xor, Or, Shl, Shr, Resize, Reverse, WordStream, LeadingByte, Top, Zeros;
    DirectIndex(r, b);
    if augmented {
      AugRunFold(r, Reverse(b), p);
      OrDisjoint(r, b);
      XorSwap(Shl(r, 8), Run(|r|, Zeros(|r|), Top(r, 8), p), Resize(b, |r|));
    } else {
      RunFold(r, Reverse(b), p);
    }
  }

  lemma ByteStepLow(n: nat, r: Register, b: Byte, p: Register, augmented: bool)
    requires 8 <= n <= |r| == |p|
    ensures ByteStep(n, r, b, p, false, augmented)[..n]
         == ByteStep(n, r[..n], b, p[..n], false, augmented)
  {
    hide Run;
    assert LeadingByte(n, r) == LeadingByte(n, r[..n]);
    assert Zeros(|p|)[..n] == Zeros(n);
    var e := if augmented then LeadingByte(n, r) else Xor(LeadingByte(n, r), b);
    RunLow(n, Zeros(|p|), Reverse(e), p);
    assert Entry(n, p, false, e)[..n] == Entry(n, p[..n], false, e);
    assert Shl(r, 8)[..n] == Shl(r[..n], 8);
    assert Or(Shl(r, 8), Resize(b, |r|))[..n] == Or(Shl(r[..n], 8), Resize(b, n));
    XorPrefix(if augmented then Or(Shl(r, 8), Resize(b, |r|)) else Shl(r, 8), Entry(n, p, false, e), n);
  }

  lemma XorPrefix(a: Register, b: Register, n: nat)
    requires |a| == |b| >= n
    ensures Xor(a, b)[..n] == Xor(a[..n], b[..n])
  {
  }

  lemma DivideLow(n: nat, r: Register, ms: seq<bool>, p: Register, augmented: bool)
    requires 0 < n <= |r| == |p|
    ensures Divide(n, r, ms, p, augmented)[..n] == Divide(n, r[..n], ms, p[..n], augmented)
  {
    RunLow(n, r, ms, p);
    AugRunLow(n, r, ms, p);
  }

  lemma DivideConcat(n: nat, r: Register, a: seq<bool>, b: seq<bool>, p: Register, augmented: bool)
    requires 0 < n <= |r| == |p|
    ensures Divide(n, r, a + b, p, augmented) == Divide(n, Divide(n, r, a, p, augmented), b, p, augmented)
  {
    RunConcat(n, r, a, b, p);
    AugRunConcat(n, r, a, b, p);
  }

  /** The direct driver divides, whatever lies above the low n bits. */
  lemma {:induction false} DirectRun(n: nat, r: Register, data: seq<Byte>, p: Register, augmented: bool)
    requires 8 <= n <= |r| == |p|
    ensures ByteRun(n, r, data, p, false, augmented)[..n]
         == Divide(n, r[..n], Stream(data, false), p[..n], augmented)
    decreases |data|
  {
    hide ByteStep, WordStream;
    if |data| > 0 {
      var init, b := data[..|data| - 1], data[|data| - 1];
      DirectRun(n, r, init, p, augmented);
      var s := ByteRun(n, r, init, p, false, augmented);
      ByteStepLow(n, s, b, p, augmented);
      DirectByte(s[..n], b, p[..n], augmented);
      DivideConcat(n, r[..n], Stream(init, false), WordStream(b, 8, false), p[..n], augmented);
    }
  }

  // ----- The reflected driver is the direct driver seen in a mirror

  function Mirrored(data: seq<Byte>): (m: seq<Byte>)
    ensures |m| == |data|
  {
    seq(|data|, i requires 0 <= i < |data| => Reverse(data[i]))
  }

  lemma MirrorShifts(r: Register, b: Byte)
    requires 8 <= |r|
    ensures Shr(Reverse(r), 8) == Reverse(Shl(r, 8))
    ensures Resize(Reverse(r), 8) == Reverse(LeadingByte(|r|, r))
    ensures Or(Shr(Reverse(r), 8), Shl(Resize(b, |r|), |r| - 8))
         == Reverse(Or(Shl(r, 8), Resize(Reverse(b), |r|)))
  {
  }

  lemma MirrorByte(r: Register, b: Byte, p: Register, augmented: bool)
    requires 8 <= |r| == |p|
    ensures ByteStep(|r|, Reverse(r), b, p, true, augmented)
         == Reverse(ByteStep(|r|, r, Reverse(b), p, false, augmented))
  {
    hide Run, Xor, Or, Shl, Shr, Resize, Reverse, LeadingByte, Reflect, Zeros;
    MirrorShifts(r, b);
    var lead := LeadingByte(|r|, r);
    var e := if augmented then lead else Xor(lead, Reverse(b));
    ReverseTwice(b);
    ReverseXor(lead, Reverse(b));
    var entry := Run(|r|, Zeros(|p|), Reverse(e), p);
    ReflectWhole(entry);
    ReverseXor(if augmented then Or(Shl(r, 8), Resize(Reverse(b), |r|)) else Shl(r, 8), entry);
  }

  lemma {:induction false} MirrorRun(r: Register, data: seq<Byte>, p: Register, augmented: bool)
    requires 8 <= |r| == |p|
    ensures ByteRun(|r|, Reverse(r), data, p, true, augmented)
         == Reverse(ByteRun(|r|, r, Mirrored(data), p, false, augmented))
    decreases |data|
  {
    hide ByteStep, Reverse;
    if |data| > 0 {
      var init, b := data[..|data| - 1], data[|data| - 1];
      MirrorRun(r, init, p, augmented);
      MirrorByte(ByteRun(|r|, r, Mirrored(init), p, false, augmented), b, p, augmented);
      assert Mirrored(data)[..|data| - 1] == Mirrored(init);
    }
  }

  lemma {:induction false} MirroredStream(data: seq<Byte>)
    ensures Stream(Mirrored(data), false) == Stream(data, true)
  {
    if |data| > 0 {
      var init, b := data[..|data| - 1], data[|data| - 1];
      MirroredStream(init);
      assert Mirrored(data)[..|data| - 1] == Mirrored(init);
      assert WordStream(Reverse(b), 8, false) == WordStream(b, 8, true);
    }
  }

  /** With no bits above the order, the reflected driver divides too, on reflected remainders. */
  lemma ReflectedRun(r: Register, data: seq<Byte>, p: Register, augmented: bool)
    requires 8 <= |r| == |p|
    ensures ByteRun(|r|, Reverse(r), data, p, true, augmented)
         == Reverse(Divide(|r|, r, Stream(data, true), p, augmented))
  {
    MirrorRun(r, data, p, augmented);
    DirectRun(|r|, r, Mirrored(data), p, augmented);
    MirroredStream(data);
    var s := ByteRun(|r|, r, Mirrored(data), p, false, augmented);
    assert s[..|r|] == s && r[..|r|] == r && p[..|r|] == p;
  }

  // ----- Both drivers, every order

  /** The settings in which no carry bits can be shifted back into the remainder. */
  predicate Exact(n: nat, w: nat, reflect: bool) {
    !reflect || n < 8 || w == n
  }

  /** Undoing the reflection of the register shows exactly the remainder of the bitwise division. */
  lemma {:induction false} UpdateDivides(n: nat, r: Register, data: seq<Byte>, p: Register, reflect: bool,
                                         augmented: bool)
    requires 0 < n <= |r| == |p| && Exact(n, |r|, reflect)
    ensures ReflectQ(n, Update(n, r, data, p, reflect, augmented), reflect)[..n]
         == Divide(n, ReflectQ(n, r, reflect)[..n], Stream(data, reflect), p[..n], augmented)
  {
    hide Run, AugRun, Divide, ByteRun, ReflectQ;
    var s, ms := ReflectQ(n, r, reflect), Stream(data, reflect);
    if n < 8 {
      var t := Divide(n, s, ms, p, augmented);
      DivideLow(n, s, ms, p, augmented);
      ReflectQLow(n, t, reflect);
      ReflectQLow(n, ReflectQ(n, t, reflect), reflect);
      ReverseTwice(t[..n]);
      UnreflectedQ(n, r);
      UnreflectedQ(n, t);
      UnreflectedQ(n, ReflectQ(n, t, reflect));
    } else if !reflect {
      UnreflectedQ(n, r);
      UnreflectedQ(n, Update(n, r, data, p, reflect, augmented));
      DirectRun(n, r, data, p, augmented);
    } else {
      WholeQ(r);
      ReverseTwice(r);
      ReflectedRun(Reverse(r), data, p, augmented);
      var t := Update(n, r, data, p, reflect, augmented);
      WholeQ(t);
      ReverseTwice(Divide(n, Reverse(r), ms, p, augmented));
      assert p[..n] == p;
      assert Reverse(r)[..n] == Reverse(r) && Reverse(t)[..n] == Reverse(t);
    }
  }

  lemma UnreflectedQ(n: nat, r: Register)
    requires 0 < n <= |r|
    ensures ReflectQ(n, r, false) == r
  {
  }

  lemma WholeQ(r: Register)
    requires 8 <= |r|
    ensures ReflectQ(|r|, r, true) == Reverse(r)
  {
    ReflectWhole(r);
    if |r| == 8 {
      assert Resize(r, 8) == r;
    }
  }

  // ----- Cutting the input

  lemma {:induction false} StreamConcat(a: seq<Byte>, b: seq<Byte>, reflect: bool)
    ensures Stream(a + b, reflect) == Stream(a, reflect) + Stream(b, reflect)
    decreases |b|
  {
    if |b| == 0 {
      assert a + b == a;
    } else {
      StreamConcat(a, b[..|b| - 1], reflect);
      assert (a + b)[..|a + b| - 1] == a + b[..|b| - 1];
    }
  }

  lemma {:induction false} ByteRunConcat(n: nat, r: Register, a: seq<Byte>, b: seq<Byte>, p: Register,
                                         reflect: bool, augmented: bool)
    requires 8 <= n <= |r| == |p|
    ensures ByteRun(n, r, a + b, p, reflect, augmented)
         == ByteRun(n, ByteRun(n, r, a, p, reflect, augmented), b, p, reflect, augmented)
    decreases |b|
  {
    hide ByteStep;
    if |b| == 0 {
      assert a + b == a;
    } else {
      ByteRunConcat(n, r, a, b[..|b| - 1], p, reflect, augmented);
      assert (a + b)[..|a + b| - 1] == a + b[..|b| - 1];
    }
  }

  /** Two calls leave the same register as one call on the joined input, bit for bit. */
  lemma UpdateConcat(n: nat, r: Register, a: seq<Byte>, b: seq<Byte>, p: Register, reflect: bool, augmented: bool)
    requires 0 < n <= |r| == |p|
    ensures Update(n, r, a + b, p, reflect, augmented)
         == Update(n, Update(n, r, a, p, reflect, augmented), b, p, reflect, augmented)
  {
    hide Divide, ReflectQ;
    if n >= 8 {
      ByteRunConcat(n, r, a, b, p, reflect, augmented);
    } else {
      var s := Divide(n, ReflectQ(n, r, reflect), Stream(a, reflect), p, augmented);
      var t := ReflectQ(n, ReflectQ(n, s, reflect), reflect);
      StreamConcat(a, b, reflect);
      DivideConcat(n, ReflectQ(n, r, reflect), Stream(a, reflect), Stream(b, reflect), p, augmented);
      if reflect {
        // the second reflection only clears the bits above the order
        ReflectQLow(n, s, true);
        ReflectQLow(n, ReflectQ(n, s, true), true);
        ReverseTwice(s[..n]);
        DivideLow(n, s, Stream(b, true), p, augmented);
        DivideLow(n, t, Stream(b, true), p, augmented);
        ReflectQLow(n, Divide(n, s, Stream(b, true), p, augmented), true);
        ReflectQLow(n, Divide(n, t, Stream(b, true), p, augmented), true);
      } else {
        UnreflectedQ(n, s);
        UnreflectedQ(n, r);
        UnreflectedQ(n, t);
      }
    }
  }
}
