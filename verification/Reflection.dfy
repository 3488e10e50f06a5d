/**
  Bit reflection: the loop that swaps bits from both ends, the table of reflected
  bytes, and the sub-byte form read from that table.
 */
module Reflection {
  import opened Registers

  // ----- What reflection is

  lemma ReflectPlaces(x: Register, n: nat, i: nat)
    requires n <= |x| && i < |x|
    ensures Reflect(x, n)[i] == if i < n then x[n - 1 - i] else x[i]
  {
  }

  lemma ReflectInvolution(x: Register, n: nat)
    requires n <= |x|
    ensures Reflect(Reflect(x, n), n) == x
  {
    var y := Reflect(x, n);
    assert y[..n] == Reverse(x[..n]) && y[n..] == x[n..];
    ReverseTwice(x[..n]);
    assert x[..n] + x[n..] == x;
  }

  lemma ReflectXor(x: Register, y: Register, n: nat)
    requires n <= |x| == |y|
    ensures Reflect(Xor(x, y), n) == Xor(Reflect(x, n), Reflect(y, n))
  {
  }

  // ----- The swapping loop

  lemma ShiftOneHot(w: nat, i: nat, k: nat)
    ensures Shl(OneHot(w, i), k) == OneHot(w, i + k)
    ensures k <= i < w ==> Shr(OneHot(w, i), k) == OneHot(w, i - k)
  {
  }

  /** The test of the swapping loop finds out whether the two bits differ. */
  lemma DifferingBits(x: Register, i: nat, k: nat)
    requires i < k < |x|
    ensures var h, l := OneHot(|x|, k), OneHot(|x|, i);
            var t := And(x, Or(h, l));
            (t == h || t == l) <==> x[i] != x[k]
  {
    var h, l := OneHot(|x|, k), OneHot(|x|, i);
    var t := And(x, Or(h, l));
    assert t[i] == x[i] && t[k] == x[k];
    assert h[k] && !h[i] && l[i] && !l[k];
    if x[k] && !x[i] { assert t == h; }
    if x[i] && !x[k] { assert t == l; }
  }

  lemma OneHotOrder(w: nat, i: nat, k: nat)
    requires i < w && k < w
    ensures Val(OneHot(w, i)) < Val(OneHot(w, k)) <==> i < k
  {
    ValOneHot(w, i);
    ValOneHot(w, k);
    Pow2Monotonic(i, k);
  }

  /** Flipping both bits when they differ swaps them. */
  lemma SwapByXor(x: Register, i: nat, k: nat)
    requires i < k < |x|
    ensures var h, l := OneHot(|x|, k), OneHot(|x|, i);
            var m := Or(h, l);
            var t := And(x, m);
            (if t == h || t == l then Xor(x, m) else x) == x[i := x[k]][k := x[i]]
  {
    DifferingBits(x, i, k);
    var m := Or(OneHot(|x|, k), OneHot(|x|, i));
    if x[i] == x[k] {
      assert x == x[i := x[k]][k := x[i]];
    } else {
      assert Xor(x, m) == x[i := x[k]][k := x[i]];
    }
  }

  /** The bit at place j after i swaps. */
  ghost predicate SwappedBit(value: Register, n: nat, i: nat, j: nat)
    requires n <= |value| && j < |value|
  {
    if j < n && (j < i || n - i <= j) then value[n - 1 - j] else value[j]
  }

  /** The state of the swapping loop after i swaps. */
  ghost predicate SwappedEnds(x: Register, value: Register, n: nat, i: nat)
    requires n <= |x| == |value| && i <= n
  {
    forall j: nat {:trigger x[j]} {:trigger SwappedBit(value, n, i, j)} :: j < |x| ==>
      x[j] == SwappedBit(value, n, i, j)
  }

  lemma SwapOneMore(x: Register, value: Register, n: nat, i: nat)
    requires n <= |x| == |value| && i < n - 1 - i
    requires SwappedEnds(x, value, n, i)
    ensures SwappedEnds(x[i := x[n - 1 - i]][n - 1 - i := x[i]], value, n, i + 1)
  {
    var y, k := x[i := x[n - 1 - i]][n - 1 - i := x[i]], n - 1 - i;
    assert x[i] == SwappedBit(value, n, i, i) && x[k] == SwappedBit(value, n, i, k);
    forall j: nat | j < |y|
      ensures y[j] == SwappedBit(value, n, i + 1, j)
    {
      assert x[j] == SwappedBit(value, n, i, j);
    }
  }

  lemma SwappedNone(value: Register, n: nat)
    requires n <= |value|
    ensures SwappedEnds(value, value, n, 0)
  {
  }

  lemma SwappedAll(x: Register, value: Register, n: nat, i: nat)
    requires n <= |x| == |value| && n - 1 - i <= i < n
    requires SwappedEnds(x, value, n, i)
    ensures x == Reflect(value, n)
  {
    forall j: nat | j < |x|
      ensures x[j] == Reflect(value, n)[j]
    {
      assert x[j] == SwappedBit(value, n, i, j);
      ReflectPlaces(value, n, j);
    }
  }

  method ReflectUnsigned(value: Register, wordLength: nat) returns (x: Register)
    requires 0 < wordLength <= |value|
    ensures x == Reflect(value, wordLength)
  {
    hide Val, Or, And, Xor, OneHot, Shl, Shr, Reflect, SwappedEnds;
    var w, n := |value|, wordLength;
    x := value;
    var l := OneHot(w, 0);
    var h := Shl(l, n - 1);
    ShiftOneHot(w, 0, n - 1);
    SwappedNone(value, n);
    ghost var i := 0;
    while Val(h) > Val(l)
      invariant 0 <= i < n && i <= n - i
      invariant l == OneHot(w, i) && h == OneHot(w, n - 1 - i)
      invariant |x| == w && SwappedEnds(x, value, n, i)
      decreases n - 2 * i
    {
      OneHotOrder(w, i, n - 1 - i);
      SwapByXor(x, i, n - 1 - i);
      SwapOneMore(x, value, n, i);
      var m := Or(h, l);
      var t := And(x, m);
      if t == h || t == l {
        x := Xor(x, m);
      }
      ShiftOneHot(w, n - 1 - i, 1);
      ShiftOneHot(w, i, 1);
      h := Shr(h, 1);
      l := Shl(l, 1);
      i := i + 1;
    }
    OneHotOrder(w, i, n - 1 - i);
    SwappedAll(x, value, n, i);
  }

  method ReflectOptionally(value: Register, reflect: bool, wordLength: nat) returns (x: Register)
    requires 0 < wordLength <= |value|
    ensures x == if reflect then Reflect(value, wordLength) else value
  {
    if reflect {
      x := ReflectUnsigned(value, wordLength);
    } else {
      x := value;
    }
  }

  // ----- Bytes

  lemma ReflectWhole(x: Register)
    ensures Reflect(x, |x|) == Reverse(x)
  {
    assert x[..|x|] == x;
    assert Reverse(x) + [] == Reverse(x);
  }

  lemma BytesAreIndices(b: Byte)
    ensures Val(b) < 256 && FromNat(Val(b), 8) == b
  {
    ValBound(b);
    FromNatOfVal(b);
    assert Pow2(8) == 256;
  }

  /** The counter is an unsigned char: the loop ends when it wraps around to 0. */
  method MakeByteReflectionTable() returns (result: array<Byte>)
    ensures fresh(result) && result.Length == 256
    ensures forall i :: 0 <= i < 256 ==> result[i] == Reverse(FromNat(i, 8))
  {
    hide Reverse, Reflect, FromNat;
    result := new Byte[256];
    var i, more := 0, true;
    while more
      invariant 0 <= i < 256 && (more || i == 0)
      invariant forall j :: 0 <= j < (if more then i else 256) ==> result[j] == Reverse(FromNat(j, 8))
      decreases if more then 256 - i else 0
    {
      var value := FromNat(i, 8);
      result[i] := ReflectUnsigned(value, 8);
      ReflectWhole(value);
      i := (i + 1) % 256;
      more := i != 0;
    }
  }

  method ReflectByte(x: Byte) returns (r: Byte)
    ensures r == Reverse(x)
  {
    var table := MakeByteReflectionTable();
    BytesAreIndices(x);
    r := table[Val(x)];
  }

  /** The n low bits of a byte in the opposite order; the higher bits are lost. */
  function SubByteReflected(x: Byte, n: nat): (r: Byte)
    requires n <= 8
  {
    Resize(Reverse(x[..n]), 8)
  }

  method ReflectSubByte(x: Byte, wordLength: nat) returns (r: Byte)
    requires 0 < wordLength <= 8
    ensures r == SubByteReflected(x, wordLength)
  {
    var y := ReflectByte(x);
    r := Shr(y, 8 - wordLength);
  }

  /** The sub-byte form is the general form exactly on values below 2^n. */
  lemma SubByteAgrees(x: Byte, n: nat)
    requires 0 < n <= 8
    ensures SubByteReflected(x, n) == Reflect(x, n) <==> forall i :: n <= i < 8 ==> !x[i]
  {
    var s, r := SubByteReflected(x, n), Reflect(x, n);
    forall i | 0 <= i < 8
      ensures s[i] == r[i] <==> (i < n || !x[i])
    {
    }
    if forall i :: n <= i < 8 ==> !x[i] {
      assert s == r;
    } else {
      var i :| n <= i < 8 && x[i];
      assert s[i] != r[i];
    }
  }

  method ReflectByteOptionally(x: Byte, reflect: bool) returns (r: Byte)
    ensures r == if reflect then Reverse(x) else x
  {
    if reflect {
      r := ReflectByte(x);
    } else {
      r := x;
    }
  }

  // ----- The reflecting mix-ins of the table-driven computer

  /**
    reflect_q: nothing, reflect_sub_byte up to 8 bits (through an unsigned char), or
    reflect_unsigned beyond.
   */
  function ReflectQ(n: nat, x: Register, doIt: bool): (r: Register)
    requires 0 < n <= |x|
    ensures |r| == |x|
  {
    if !doIt then x
    else if n > 8 then Reflect(x, n)
    else Resize(SubByteReflected(Resize(x, 8), n), |x|)
  }

  method PossibleReflector(n: nat, x: Register, doIt: bool) returns (r: Register)
    requires 0 < n <= |x|
    ensures r == ReflectQ(n, x, doIt)
  {
    if !doIt {
      r := x;
    } else if n > 8 {
      r := ReflectUnsigned(x, n);
    } else {
      var y := ReflectSubByte(Resize(x, 8), n);
      r := Resize(y, |x|);
    }
  }

  /** Every mix-in reverses the low n bits; up to 8 bits it clears the rest too. */
  lemma ReflectQLow(n: nat, x: Register, doIt: bool)
    requires 0 < n <= |x|
    ensures ReflectQ(n, x, doIt)[..n] == if doIt then Reverse(x[..n]) else x[..n]
    ensures doIt && n > 8 ==> ReflectQ(n, x, doIt)[n..] == x[n..]
    ensures doIt && n <= 8 ==> ReflectQ(n, x, doIt) == Resize(Reverse(x[..n]), |x|)
  {
    if doIt && n <= 8 {
      assert Resize(x, 8)[..n] == x[..n];
      assert ReflectQ(n, x, doIt) == Resize(Reverse(x[..n]), |x|);
    }
  }

  lemma ReflectQXor(n: nat, x: Register, y: Register, doIt: bool)
    requires 0 < n <= |x| == |y|
    ensures ReflectQ(n, Xor(x, y), doIt) == Xor(ReflectQ(n, x, doIt), ReflectQ(n, y, doIt))
  {
    if doIt && n > 8 {
      ReflectXor(x, y, n);
    } else if doIt {
      ReflectQLow(n, x, true);
      ReflectQLow(n, y, true);
      ReflectQLow(n, Xor(x, y), true);
      assert Xor(x, y)[..n] == Xor(x[..n], y[..n]);
      ReverseXor(x[..n], y[..n]);
    }
  }
}
