/** The two ways to use augmented_crc: a trailer of zero bytes, or the checksum itself as the trailer. */
module AugmentedMessages {
  import opened Registers
  import opened Division
  import opened Dividers
  import opened Drivers
  import opened Formula

  function AugmentedCrc(n: nat, p: Register, data: seq<Byte>, r: Register): (s: Register)
    requires 8 <= n <= |p| == |r|
    ensures |s| == |p|
  {
    And(LowMask(|p|, n), ByteRun(n, r, data, p, false, true))
  }

  function ZeroBytes(k: nat): (data: seq<Byte>)
    ensures |data| == k
  {
    var zero: Byte := Zeros(8);
    seq(k, _ => zero)
  }

  lemma {:induction false} ZeroStream(k: nat)
    ensures Stream(ZeroBytes(k), false) == Zeros(8 * k)
  {
    if k > 0 {
      ZeroStream(k - 1);
      assert ZeroBytes(k)[..k - 1] == ZeroBytes(k - 1);
      assert WordStream(Zeros(8), 8, false) == Zeros(8);
      assert Zeros(8 * (k - 1)) + Zeros(8) == Zeros(8 * k);
    }
  }

  lemma {:induction false} AugmentedCrcMeaning(n: nat, p: Register, data: seq<Byte>, r: Register)
    requires 8 <= n <= |p| == |r|
    ensures AugmentedCrc(n, p, data, r)
         == Resize(AugRun(n, r[..n], Stream(data, false), p[..n]), |p|)
  {
    hide AugRun, ByteRun;
    DirectRun(n, r, data, p, true);
    MaskIsResize(ByteRun(n, r, data, p, false, true), n);
    AndCommutes(LowMask(|p|, n), ByteRun(n, r, data, p, false, true));
  }

  lemma AndCommutes(a: Register, b: Register)
    requires |a| == |b|
    ensures And(a, b) == And(b, a)
  {
  }

  /** Several runs, each started from the value returned by the one before, are one run. */
  lemma {:induction false} RunsChain(n: nat, p: Register, a: seq<Byte>, b: seq<Byte>, r: Register)
    requires 8 <= n <= |p| == |r|
    ensures AugmentedCrc(n, p, a + b, r) == AugmentedCrc(n, p, b, AugmentedCrc(n, p, a, r))
  {
    hide AugRun, AugmentedCrc, Stream;
    var s := AugmentedCrc(n, p, a, r);
    AugmentedCrcMeaning(n, p, a, r);
    AugmentedCrcMeaning(n, p, b, s);
    AugmentedCrcMeaning(n, p, a + b, r);
    StreamConcat(a, b, false);
    AugRunConcat(n, r[..n], Stream(a, false), Stream(b, false), p[..n]);
    assert s[..n] == AugRun(n, r[..n], Stream(a, false), p[..n]);
  }

  /** Data and n/8 zero bytes give the unaugmented remainder, for the start remainder r * x^n. */
  lemma {:induction false} ZeroTrailer(n: nat, p: Register, data: seq<Byte>, r: Register)
    requires 8 <= n <= |p| == |r| && n % 8 == 0
    ensures AugmentedCrc(n, p, data + ZeroBytes(n / 8), r)
         == Resize(Run(n, Augmented(n, r[..n], p[..n]), Stream(data, false), p[..n]), |p|)
  {
    hide AugRun, Run, AugmentedCrc;
    StreamConcat(data, ZeroBytes(n / 8), false);
    ZeroStream(n / 8);
    AugmentedCrcMeaning(n, p, data + ZeroBytes(n / 8), r);
    AugmentedRun(n, r[..n], Stream(data, false), p[..n]);
  }

  /** The formula without reflection or final xor, started from i. */
  function Plain(n: nat, p: Register, i: Register): Params {
    Params(n, p, i, Zeros(|p|), false, false)
  }

  /**
    augmented_crc of the zero-extended data is the plain checksum of the data, by either
    computer, when the start remainders correspond; in particular both may be zero.
   */
  lemma AugmentedEqualsUnaugmented(n: nat, p: Register, data: seq<Byte>, r: Register, i: Register)
    requires 8 <= n <= |p| == |r| == |i| && n % 8 == 0
    requires i[..n] == Augmented(n, r[..n], p[..n])
    ensures var c := Plain(n, p, i);
      && AugmentedCrc(n, p, data + ZeroBytes(n / 8), r) == BasicChecksum(c, BasicFeed(c, i, data))
      && AugmentedCrc(n, p, data + ZeroBytes(n / 8), r) == OptimalChecksum(c, OptimalFeed(c, OptimalStart(c, i), data))
  {
    hide AugmentedCrc, BasicChecksum, BasicFeed, OptimalChecksum, OptimalFeed, OptimalStart, Run, AugRun, Augmented;
    var c := Plain(n, p, i);
    ZeroTrailer(n, p, data, r);
    BasicMeaning(c, i, data);
    OptimalAgrees(c, i, data);
    XorZeros(Remainder(c, i, Stream(data, false)));
    assert Zeros(|p|)[..n] == Zeros(n);
  }

  lemma ZeroStartsCorrespond(n: nat, p: Register)
    requires 0 < n <= |p|
    ensures Zeros(|p|)[..n] == Augmented(n, Zeros(|p|)[..n], p[..n])
  {
    assert Zeros(|p|)[..n] == Zeros(n);
    RunZeros(n, n, p[..n]);
    RunsAgreeOnZeros(n, Zeros(n), n, p[..n]);
  }

  // ----- The checksum as the trailer

  /** The n low bits of a register as n/8 bytes, the highest first. */
  function BigEndian(x: Register, n: nat): (data: seq<Byte>)
    requires n <= |x| && n % 8 == 0
    ensures |data| == n / 8
  {
    seq(n / 8, i requires 0 <= i < n / 8 => x[n - 8 * (i + 1)..n - 8 * i])
  }

  lemma {:induction false} BigEndianStream(x: Register, n: nat, k: nat)
    requires n <= |x| && n % 8 == 0 && 8 * k <= n
    ensures Stream(BigEndian(x, n)[..k], false) == Reverse(x[n - 8 * k..n])
  {
    if k > 0 {
      BigEndianStream(x, n, k - 1);
      var data, b := BigEndian(x, n)[..k], x[n - 8 * k..n - 8 * (k - 1)];
      assert data[..k - 1] == BigEndian(x, n)[..k - 1] && data[k - 1] == b;
      assert WordStream(b, 8, false) == Reverse(b) by { assert b[..8] == b; }
      ReverseConcat(b, x[n - 8 * (k - 1)..n]);
      assert b + x[n - 8 * (k - 1)..n] == x[n - 8 * k..n];
    }
  }

  lemma {:induction false} StreamInjective(a: seq<Byte>, b: seq<Byte>)
    requires Stream(a, false) == Stream(b, false)
    ensures a == b
    decreases |a|
  {
    if |a| > 0 {
      var k := |a| - 1;
      var x, y := WordStream(a[k], 8, false), WordStream(b[k], 8, false);
      var v, w := Stream(a[..k], false), Stream(b[..k], false);
      assert v + x == w + y;
      assert v == (v + x)[..8 * k] == (w + y)[..8 * k] == w;
      assert x == (v + x)[8 * k..] == (w + y)[8 * k..] == y;
      StreamInjective(a[..k], b[..k]);
      ReverseTwice(a[k]);
      ReverseTwice(b[k]);
      assert a[k][..8] == a[k] && b[k][..8] == b[k];
      assert a == a[..k] + [a[k]] && b == b[..k] + [b[k]];
    }
  }

  /** Reading n more bits t adds t to what n zero bits would have given. */
  lemma {:induction false} TrailerAdds(n: nat, r: Register, ms: seq<bool>, t: seq<bool>, p: Register)
    requires 0 < n == |r| == |p| == |t|
    ensures AugRun(n, r, ms + t, p) == Xor(AugRun(n, r, ms + Zeros(n), p), Reverse(t))
  {
    hide *;
    var s := AugRun(n, r, ms, p);
    AugRunConcat(n, r, ms, t, p);
    AugRunConcat(n, r, ms, Zeros(n), p);
    XorZeros(s);
    XorZeros(t);
    AugRunLinear(n, s, Zeros(n), Zeros(n), t, p);
    AugRunStores(n, t, p);
    ResizeSame(Reverse(t));
  }

  lemma ResizeSame(x: Register)
    ensures Resize(x, |x|) == x
  {
  }

  lemma ZeroOrNot(x: Register, w: nat)
    requires |x| <= w
    ensures Resize(x, w) == Zeros(w) <==> x == Zeros(|x|)
  {
    var y := Resize(x, w);
    if y == Zeros(w) {
      assert forall i :: 0 <= i < |x| ==> x[i] == y[i];
    }
  }

  lemma XorIsZero(a: Register, b: Register)
    requires |a| == |b|
    ensures Xor(a, b) == Zeros(|a|) <==> a == b
  {
    XorZeros(a);
    if Xor(a, b) == Zeros(|a|) {
      XorCancels(a, b);
    }
  }

  /** The checksum of the data by the zero-byte technique. */
  function TrailerFor(n: nat, p: Register, data: seq<Byte>, r: Register): (s: Register)
    requires 8 <= n <= |p| == |r| && n % 8 == 0
    ensures |s| == |p|
  {
    AugmentedCrc(n, p, data + ZeroBytes(n / 8), r)
  }

  /** Data followed by an n-bit trailer gives zero if and only if the trailer is the big-endian checksum. */
  lemma ZeroIffTrailer(n: nat, p: Register, data: seq<Byte>, trailer: seq<Byte>, r: Register)
    requires 8 <= n <= |p| == |r| && n % 8 == 0 && |trailer| == n / 8
    ensures AugmentedCrc(n, p, data + trailer, r) == Zeros(|p|)
       <==> trailer == BigEndian(TrailerFor(n, p, data, r), n)
  {
    hide *;
    var ms, t, zeros := Stream(data, false), Stream(trailer, false), ZeroBytes(n / 8);
    var sum := AugRun(n, r[..n], ms + Zeros(n), p[..n]);
    StreamConcat(data, trailer, false);
    StreamConcat(data, zeros, false);
    ZeroStream(n / 8);
    AugmentedCrcMeaning(n, p, data + trailer, r);
    AugmentedCrcMeaning(n, p, data + zeros, r);
    TrailerIs(n, p, data, r);
    TrailerAdds(n, r[..n], ms, t, p[..n]);
    ZeroOrNot(Xor(sum, Reverse(t)), |p|);
    XorIsZero(sum, Reverse(t));
    TrailerBits(n, p, data, r, sum, trailer);
  }

  lemma TrailerIs(n: nat, p: Register, data: seq<Byte>, r: Register)
    requires 8 <= n <= |p| == |r| && n % 8 == 0
    ensures TrailerFor(n, p, data, r) == AugmentedCrc(n, p, data + ZeroBytes(n / 8), r)
  {
  }

  lemma TrailerBits(n: nat, p: Register, data: seq<Byte>, r: Register, sum: Register, trailer: seq<Byte>)
    requires 8 <= n <= |p| == |r| && n % 8 == 0 && |trailer| == n / 8 && |sum| == n
    requires TrailerFor(n, p, data, r) == Resize(sum, |p|)
    ensures sum == Reverse(Stream(trailer, false)) <==> trailer == BigEndian(TrailerFor(n, p, data, r), n)
  {
    hide Stream, TrailerFor, BigEndian;
    var x := TrailerFor(n, p, data, r);
    assert x[..n] == sum;
    BigEndianStream(x, n, n / 8);
    assert BigEndian(x, n)[..n / 8] == BigEndian(x, n);
    assert x[n - 8 * (n / 8)..n] == sum;
    ReverseTwice(sum);
    ReverseTwice(Stream(trailer, false));
    if sum == Reverse(Stream(trailer, false)) {
      StreamInjective(trailer, BigEndian(x, n));
    }
  }
}
