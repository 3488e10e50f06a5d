/**
  Unsigned machine words of any width.

  A `Register` of width w lists its w bits, the 1-place first, so that index i is
  the bit at 2^i and the coefficient of x^i.  Every operation keeps the width of
  its (first) argument, as the C++ operators do after conversion back to the
  variable's type; `Resize` is the integral conversion between two widths.
 */
module Registers {

  type Register = seq<bool>

  type Byte = b: Register | |b| == 8
    witness [false, false, false, false, false, false, false, false]

  function Zeros(w: nat): (r: Register)
    ensures |r| == w
  {
    seq(w, _ => false)
  }

  function OneHot(w: nat, place: nat): (r: Register)
    ensures |r| == w
  {
    seq(w, i => i == place)
  }

  /** 2^count - 1 */
  function LowMask(w: nat, count: nat): (r: Register)
    ensures |r| == w
  {
    seq(w, i => i < count)
  }

  function Xor(a: Register, b: Register): (r: Register)
    requires |a| == |b|
    ensures |r| == |a|
  {
    seq(|a|, i requires 0 <= i < |a| => a[i] != b[i])
  }

  function And(a: Register, b: Register): (r: Register)
    requires |a| == |b|
    ensures |r| == |a|
  {
    seq(|a|, i requires 0 <= i < |a| => a[i] && b[i])
  }

  function Or(a: Register, b: Register): (r: Register)
    requires |a| == |b|
    ensures |r| == |a|
  {
    seq(|a|, i requires 0 <= i < |a| => a[i] || b[i])
  }

  function Shl(a: Register, k: nat): (r: Register)
    ensures |r| == |a|
  {
    seq(|a|, i requires 0 <= i < |a| => i >= k && a[i - k])
  }

  function Shr(a: Register, k: nat): (r: Register)
    ensures |r| == |a|
  {
    seq(|a|, i requires 0 <= i < |a| => i + k < |a| && a[i + k])
  }

  function Resize(a: Register, w: nat): (r: Register)
    ensures |r| == w
  {
    seq(w, i requires 0 <= i < w => i < |a| && a[i])
  }

  /** `bit ? a : 0u` */
  function Scale(bit: bool, a: Register): (r: Register)
    ensures |r| == |a|
  {
    if bit then a else Zeros(|a|)
  }

  function Reverse(a: seq<bool>): (r: seq<bool>)
    ensures |r| == |a|
  {
    seq(|a|, i requires 0 <= i < |a| => a[|a| - 1 - i])
  }

  /** The n low bits in the opposite order, the others as they are. */
  function Reflect(a: Register, n: nat): (r: Register)
    requires n <= |a|
    ensures |r| == |a|
  {
    Reverse(a[..n]) + a[n..]
  }

  // ----- Values

  function Pow2(k: nat): (r: nat)
    ensures r > 0
  {
    if k == 0 then 1 else 2 * Pow2(k - 1)
  }

  function Val(a: Register): nat {
    if |a| == 0 then 0 else (if a[0] then 1 else 0) + 2 * Val(a[1..])
  }

  function FromNat(v: nat, w: nat): (r: Register)
    ensures |r| == w
  {
    if w == 0 then [] else [v % 2 == 1] + FromNat(v / 2, w - 1)
  }

  lemma {:induction false} ValBound(a: Register)
    ensures Val(a) < Pow2(|a|)
  {
    if |a| > 0 { ValBound(a[1..]); }
  }

  lemma {:induction false} FromNatOfVal(a: Register)
    ensures FromNat(Val(a), |a|) == a
  {
    if |a| > 0 {
      FromNatOfVal(a[1..]);
      assert a == [a[0]] + a[1..];
    }
  }

  lemma {:induction false} ValOfFromNat(v: nat, w: nat)
    requires v < Pow2(w)
    ensures Val(FromNat(v, w)) == v
  {
    if w > 0 {
      ValOfFromNat(v / 2, w - 1);
      assert FromNat(v, w)[1..] == FromNat(v / 2, w - 1);
    }
  }

  lemma {:induction false} FromNatWider(v: nat, w: nat)
    requires v < Pow2(w)
    ensures FromNat(v, w + 1) == FromNat(v, w) + [false]
  {
    if w > 0 {
      FromNatWider(v / 2, w - 1);
    } else {
      assert FromNat(0, 1) == [false] + FromNat(0, 0);
    }
  }

  lemma {:induction false} ValAppendFalse(a: Register)
    ensures Val(a + [false]) == Val(a)
  {
    if |a| > 0 {
      ValAppendFalse(a[1..]);
      assert (a + [false])[1..] == a[1..] + [false];
    }
  }

  lemma {:induction false} ValZeros(w: nat)
    ensures Val(Zeros(w)) == 0
  {
    if w > 0 {
      ValZeros(w - 1);
      assert Zeros(w)[1..] == Zeros(w - 1);
    }
  }

  lemma {:induction false} ValOneHot(w: nat, place: nat)
    requires place < w
    ensures Val(OneHot(w, place)) == Pow2(place)
  {
    if place == 0 {
      assert OneHot(w, 0)[1..] == Zeros(w - 1);
      ValZeros(w - 1);
    } else {
      ValOneHot(w - 1, place - 1);
      assert OneHot(w, place)[1..] == OneHot(w - 1, place - 1);
    }
  }

  lemma {:induction false} Pow2Monotonic(a: nat, b: nat)
    ensures a < b <==> Pow2(a) < Pow2(b)
    decreases a + b
  {
    if a > 0 && b > 0 { Pow2Monotonic(a - 1, b - 1); }
  }

  // ----- The operations as arithmetic

  lemma ShiftRightHalves(a: Register)
    ensures Val(Shr(a, 1)) == Val(a) / 2
  {
    if |a| > 0 {
      assert Shr(a, 1) == a[1..] + [false];
      ValAppendFalse(a[1..]);
    }
  }

  lemma MulTwo(x: nat, y: nat)
    ensures 2 * x * y == 2 * (x * y)
  {
  }

  lemma {:induction false} ValSplit(a: Register, b: Register)
    ensures Val(a + b) == Val(a) + Pow2(|a|) * Val(b)
  {
    if |a| == 0 {
      assert a + b == b;
    } else {
      ValSplit(a[1..], b);
      assert (a + b)[1..] == a[1..] + b;
      MulTwo(Pow2(|a| - 1), Val(b));
    }
  }

  /** Conversion to a narrower type is modulo 2^w; to a wider one it keeps the value. */
  lemma {:induction false} ResizeIsModulo(a: Register, w: nat)
    ensures Val(Resize(a, w)) < Pow2(w)
    ensures w <= |a| ==> Val(a) == Val(Resize(a, w)) + Pow2(w) * Val(a[w..])
    ensures w >= |a| ==> Val(a) == Val(Resize(a, w))
  {
    ValBound(Resize(a, w));
    if w <= |a| {
      assert a == a[..w] + a[w..] && Resize(a, w) == a[..w];
      ValSplit(a[..w], a[w..]);
    }
    if w >= |a| {
      assert Resize(a, w) == a + Zeros(w - |a|);
      ValSplit(a, Zeros(w - |a|));
      ValZeros(w - |a|);
    }
  }

  /** Shifting left doubles, less 2^w for the bit that is lost. */
  lemma {:induction false} ShiftLeftDoubles(a: Register)
    requires |a| > 0
    ensures 2 * Val(a) == Val(Shl(a, 1)) + (if a[|a| - 1] then Pow2(|a|) else 0)
  {
    var k := |a| - 1;
    assert a == a[..k] + [a[k]];
    assert Shl(a, 1) == [false] + a[..k];
    assert ([false] + a[..k])[1..] == a[..k];
    ValSplit(a[..k], [a[k]]);
    assert Val([a[k]]) == if a[k] then 1 else 0 by {
      assert [a[k]][1..] == [];
    }
  }

  lemma ShiftsCompose(a: Register, j: nat, k: nat)
    ensures Shl(Shl(a, j), k) == Shl(a, j + k) && Shr(Shr(a, j), k) == Shr(a, j + k)
    ensures Shl(a, 0) == a == Shr(a, 0)
  {
  }

  lemma {:induction false} MaskValue(w: nat, count: nat)
    requires count <= w
    ensures Val(LowMask(w, count)) == Pow2(count) - 1
  {
    if count == 0 {
      assert LowMask(w, 0) == Zeros(w);
      ValZeros(w);
    } else {
      MaskValue(w - 1, count - 1);
      assert LowMask(w, count)[1..] == LowMask(w - 1, count - 1);
    }
  }

  // ----- Reversal

  lemma ReverseTwice(a: seq<bool>)
    ensures Reverse(Reverse(a)) == a
  {
  }

  lemma ReverseConcat(a: seq<bool>, b: seq<bool>)
    ensures Reverse(a + b) == Reverse(b) + Reverse(a)
  {
  }

  lemma ReverseXor(a: seq<bool>, b: seq<bool>)
    requires |a| == |b|
    ensures Reverse(Xor(a, b)) == Xor(Reverse(a), Reverse(b))
  {
  }

  // ----- The xor group

  lemma XorAssociates(a: Register, b: Register, c: Register)
    requires |a| == |b| == |c|
    ensures Xor(Xor(a, b), c) == Xor(a, Xor(b, c))
  {
  }

  lemma XorConcat(a: seq<bool>, b: seq<bool>, c: seq<bool>, d: seq<bool>)
    requires |a| == |c| && |b| == |d|
    ensures Xor(a + b, c + d) == Xor(a, c) + Xor(b, d)
  {
  }

  lemma XorInterchange(a: Register, b: Register, d: Register, e: Register)
    requires |a| == |b| == |d| == |e|
    ensures Xor(Xor(a, b), Xor(d, e)) == Xor(Xor(a, d), Xor(b, e))
  {
  }

  lemma XorZeros(a: Register)
    ensures Xor(a, Zeros(|a|)) == a
    ensures Xor(Zeros(|a|), a) == a
    ensures Xor(a, a) == Zeros(|a|)
  {
  }

  lemma XorCancels(a: Register, b: Register)
    requires |a| == |b|
    ensures Xor(a, Xor(a, b)) == b
  {
  }
}
