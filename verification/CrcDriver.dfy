/**
  The driver loops.  A buffer is an array, the address to read from is an index
  into it, and the template arguments are ordinary parameters.
 */
module CrcDriver {
  import opened Registers
  import opened Division
  import opened Reflection
  import opened Dividers
  import opened Tables
  import opened Drivers

  lemma {:induction false} ByteRunOneMore(n: nat, r: Register, data: seq<Byte>, k: nat, p: Register,
                                          reflect: bool, augmented: bool)
    requires 8 <= n <= |r| == |p| && k < |data|
    ensures ByteRun(n, r, data[..k + 1], p, reflect, augmented)
         == ByteStep(n, ByteRun(n, r, data[..k], p, reflect, augmented), data[k], p, reflect, augmented)
  {
    assert data[..k + 1][..k] == data[..k];
  }

  lemma DivideOneMore(n: nat, r: Register, data: seq<Byte>, k: nat, p: Register, reflect: bool, augmented: bool)
    requires 0 < n <= |r| == |p| && k < |data|
    ensures Divide(n, r, Stream(data[..k + 1], reflect), p, augmented)
         == Divide(n, Divide(n, r, Stream(data[..k], reflect), p, augmented),
                   WordStream(data[k], 8, reflect), p, augmented)
  {
    assert data[..k + 1][..k] == data[..k];
    DivideConcat(n, r, Stream(data[..k], reflect), WordStream(data[k], 8, reflect), p, augmented);
  }

  /** The index expressions of the direct loops. */
  lemma MaskedLeadingByte(n: nat, r: Register)
    requires 8 <= n <= |r|
    ensures Resize(And(Shr(r, n - 8), LowMask(|r|, 8)), 8) == LeadingByte(n, r)
    ensures Resize(And(r, LowMask(|r|, 8)), 8) == Resize(r, 8)
  {
  }

  // ----- Orders of 8 and more, direct

  method DirectAugmentedCrcUpdate(n: nat, remainder: Register, buffer: array<Byte>, start: nat, count: nat, p: Register)
    returns (r: Register)
    requires 8 <= n <= |remainder| == |p| && start + count <= buffer.Length
    ensures r == ByteRun(n, remainder, buffer[start..start + count], p, false, true)
    ensures r[..n] == AugRun(n, remainder[..n], Stream(buffer[start..start + count], false), p[..n])
  {
    hide *;
    var table := MakePartialXorProductsTable(8, n, p, false);
    ghost var data := buffer[start..start + count];
    r := remainder;
    ByteRunEmpty(n, r, data, p, false, true);
    var next, left := start, count;
    while left != 0
      invariant 0 <= left <= count && next == start + count - left
      invariant IsTable(table[..], 8, n, p, false)
      invariant r == ByteRun(n, remainder, data[..count - left], p, false, true)
    {
      ByteRunOneMore(n, remainder, data, count - left, p, false, true);
      MaskedLeadingByte(n, r);
      var index: Byte := Resize(And(Shr(r, n - 8), LowMask(|r|, 8)), 8);
      TableLookup(table[..], n, p, false, index);
      DirectByteStep(n, r, buffer[next], p);
      r := Shl(r, 8);
      r := Or(r, Resize(buffer[next], |r|));
      r := Xor(r, table[Val(index)]);
      next, left := next + 1, left - 1;
    }
    assert data[..count] == data;
    DirectRun(n, remainder, data, p, true);
    DivideCases(n, remainder[..n], Stream(data, false), p[..n]);
  }

  method DirectCrcUpdate(n: nat, remainder: Register, buffer: array<Byte>, start: nat, count: nat, p: Register)
    returns (r: Register)
    requires 8 <= n <= |remainder| == |p| && start + count <= buffer.Length
    ensures r == ByteRun(n, remainder, buffer[start..start + count], p, false, false)
    ensures r[..n] == Run(n, remainder[..n], Stream(buffer[start..start + count], false), p[..n])
  {
    hide *;
    var table := MakePartialXorProductsTable(8, n, p, false);
    ghost var data := buffer[start..start + count];
    r := remainder;
    ByteRunEmpty(n, r, data, p, false, false);
    var next, left := start, count;
    while left != 0
      invariant 0 <= left <= count && next == start + count - left
      invariant IsTable(table[..], 8, n, p, false)
      invariant r == ByteRun(n, remainder, data[..count - left], p, false, false)
    {
      ByteRunOneMore(n, remainder, data, count - left, p, false, false);
      MaskedLeadingByte(n, r);
      var index: Byte := Xor(Resize(And(Shr(r, n - 8), LowMask(|r|, 8)), 8), buffer[next]);
      TableLookup(table[..], n, p, false, index);
      DirectByteStep(n, r, buffer[next], p);
      r := Shl(r, 8);
      r := Xor(r, table[Val(index)]);
      next, left := next + 1, left - 1;
    }
    assert data[..count] == data;
    DirectRun(n, remainder, data, p, false);
    DivideCases(n, remainder[..n], Stream(data, false), p[..n]);
  }

  lemma ByteRunEmpty(n: nat, r: Register, data: seq<Byte>, p: Register, reflect: bool, augmented: bool)
    requires 8 <= n <= |r| == |p|
    ensures ByteRun(n, r, data[..0], p, reflect, augmented) == r
  {
  }

  lemma DivideCases(n: nat, r: Register, ms: seq<bool>, p: Register)
    requires 0 < n <= |r| == |p|
    ensures Divide(n, r, ms, p, true) == AugRun(n, r, ms, p)
    ensures Divide(n, r, ms, p, false) == Run(n, r, ms, p)
  {
  }

  lemma DirectByteStep(n: nat, r: Register, b: Byte, p: Register)
    requires 8 <= n <= |r| == |p|
    ensures ByteStep(n, r, b, p, false, true)
         == Xor(Or(Shl(r, 8), Resize(b, |r|)), Entry(n, p, false, LeadingByte(n, r)))
    ensures ByteStep(n, r, b, p, false, false)
         == Xor(Shl(r, 8), Entry(n, p, false, Xor(LeadingByte(n, r), b)))
  {
  }

  lemma ReflectedByteStep(n: nat, r: Register, b: Byte, p: Register)
    requires 8 <= n <= |r| == |p|
    ensures ByteStep(n, r, b, p, true, true)
         == Xor(Or(Shr(r, 8), Shl(Resize(b, |r|), n - 8)), Entry(n, p, true, Resize(r, 8)))
    ensures ByteStep(n, r, b, p, true, false)
         == Xor(Shr(r, 8), Entry(n, p, true, Xor(Resize(r, 8), b)))
  {
  }

  // ----- Orders of 8 and more, reflected

  method ReflectedAugmentedCrcUpdate(n: nat, remainder: Register, buffer: array<Byte>, start: nat, count: nat,
                                     p: Register)
    returns (r: Register)
    requires 8 <= n <= |remainder| == |p| && start + count <= buffer.Length
    ensures r == ByteRun(n, remainder, buffer[start..start + count], p, true, true)
    ensures n == |p| ==>
      Reverse(r) == AugRun(n, Reverse(remainder), Stream(buffer[start..start + count], true), p)
  {
    hide *;
    var table := MakePartialXorProductsTable(8, n, p, true);
    ghost var data := buffer[start..start + count];
    r := remainder;
    ByteRunEmpty(n, r, data, p, true, true);
    var next, left := start, count;
    while left != 0
      invariant 0 <= left <= count && next == start + count - left
      invariant IsTable(table[..], 8, n, p, true)
      invariant r == ByteRun(n, remainder, data[..count - left], p, true, true)
    {
      ByteRunOneMore(n, remainder, data, count - left, p, true, true);
      MaskedLeadingByte(n, r);
      var index: Byte := Resize(And(r, LowMask(|r|, 8)), 8);
      TableLookup(table[..], n, p, true, index);
      ReflectedByteStep(n, r, buffer[next], p);
      r := Shr(r, 8);
      r := Or(r, Shl(Resize(buffer[next], |r|), n - 8));
      r := Xor(r, table[Val(index)]);
      next, left := next + 1, left - 1;
    }
    assert data[..count] == data;
    ReflectedMeaning(n, remainder, data, p, true);
    DivideCases(n, Reverse(remainder), Stream(data, true), p);
  }

  method ReflectedCrcUpdate(n: nat, remainder: Register, buffer: array<Byte>, start: nat, count: nat, p: Register)
    returns (r: Register)
    requires 8 <= n <= |remainder| == |p| && start + count <= buffer.Length
    ensures r == ByteRun(n, remainder, buffer[start..start + count], p, true, false)
    ensures n == |p| ==>
      Reverse(r) == Run(n, Reverse(remainder), Stream(buffer[start..start + count], true), p)
  {
    hide *;
    var table := MakePartialXorProductsTable(8, n, p, true);
    ghost var data := buffer[start..start + count];
    r := remainder;
    ByteRunEmpty(n, r, data, p, true, false);
    var next, left := start, count;
    while left != 0
      invariant 0 <= left <= count && next == start + count - left
      invariant IsTable(table[..], 8, n, p, true)
      invariant r == ByteRun(n, remainder, data[..count - left], p, true, false)
    {
      ByteRunOneMore(n, remainder, data, count - left, p, true, false);
      MaskedLeadingByte(n, r);
      var index: Byte := Xor(Resize(And(r, LowMask(|r|, 8)), 8), buffer[next]);
      TableLookup(table[..], n, p, true, index);
      ReflectedByteStep(n, r, buffer[next], p);
      r := Shr(r, 8);
      r := Xor(r, table[Val(index)]);
      next, left := next + 1, left - 1;
    }
    assert data[..count] == data;
    ReflectedMeaning(n, remainder, data, p, false);
    DivideCases(n, Reverse(remainder), Stream(data, true), p);
  }

  lemma ReflectedMeaning(n: nat, r: Register, data: seq<Byte>, p: Register, augmented: bool)
    requires 8 <= n <= |r| == |p|
    ensures n == |p| ==>
      Reverse(ByteRun(n, r, data, p, true, augmented)) == Divide(n, Reverse(r), Stream(data, true), p, augmented)
  {
    hide *;
    if n == |p| {
      ReflectedRun(Reverse(r), data, p, augmented);
      ReverseTwice(r);
      ReverseTwice(Divide(n, Reverse(r), Stream(data, true), p, augmented));
    }
  }

  // ----- Orders below 8

  method DirectSubByteAugmentedCrcUpdate(n: nat, remainder: Register, buffer: array<Byte>, start: nat,
                                         count: nat, p: Register)
    returns (r: Register)
    requires 0 < n < 8 && n <= |remainder| == |p| && start + count <= buffer.Length
    ensures r == AugRun(n, remainder, Stream(buffer[start..start + count], false), p)
  {
    hide Divide, AugRun, Run;
    ghost var data := buffer[start..start + count];
    r := remainder;
    DivideEmpty(n, r, p);
    var next, left := start, count;
    while left != 0
      invariant 0 <= left <= count && next == start + count - left && |r| == |p|
      invariant r == Divide(n, remainder, Stream(data[..count - left], false), p, true)
    {
      DivideOneMore(n, remainder, data, count - left, p, false, true);
      DivideCases(n, r, WordStream(buffer[next], 8, false), p);
      r := AugmentedCrcModuloWordUpdate(n, r, buffer[next], p, 8, false);
      next, left := next + 1, left - 1;
    }
    assert data[..count] == data;
    DivideCases(n, remainder, Stream(data, false), p);
  }

  method DirectSubByteCrcUpdate(n: nat, remainder: Register, buffer: array<Byte>, start: nat, count: nat, p: Register)
    returns (r: Register)
    requires 0 < n < 8 && n <= |remainder| == |p| && start + count <= buffer.Length
    ensures r == Run(n, remainder, Stream(buffer[start..start + count], false), p)
  {
    hide Divide, AugRun, Run;
    ghost var data := buffer[start..start + count];
    r := remainder;
    DivideEmpty(n, r, p);
    var next, left := start, count;
    while left != 0
      invariant 0 <= left <= count && next == start + count - left && |r| == |p|
      invariant r == Divide(n, remainder, Stream(data[..count - left], false), p, false)
    {
      DivideOneMore(n, remainder, data, count - left, p, false, false);
      DivideCases(n, r, WordStream(buffer[next], 8, false), p);
      r := CrcModuloWordUpdate(n, r, buffer[next], p, 8, false);
      next, left := next + 1, left - 1;
    }
    assert data[..count] == data;
    DivideCases(n, remainder, Stream(data, false), p);
  }

  lemma DivideEmpty(n: nat, r: Register, p: Register)
    requires 0 < n <= |r| == |p|
    ensures Divide(n, r, [], p, true) == r == Divide(n, r, [], p, false)
  {
  }

  /** reflect_sub_byte applied to a register, through an unsigned char */
  method ReflectSubByteRegister(r: Register, n: nat) returns (r': Register)
    requires 0 < n <= 8 && n <= |r|
    ensures r' == ReflectQ(n, r, true)
  {
    var b := ReflectSubByte(Resize(r, 8), n);
    r' := Resize(b, |r|);
  }

  method ReflectedSubByteAugmentedCrcUpdate(n: nat, remainder: Register, buffer: array<Byte>, start: nat,
                                            count: nat, p: Register)
    returns (r: Register)
    requires 0 < n < 8 && n <= |remainder| == |p| && start + count <= buffer.Length
    ensures r == Update(n, remainder, buffer[start..start + count], p, true, true)
    ensures Reverse(r[..n])
         == AugRun(n, Reverse(remainder[..n]), Stream(buffer[start..start + count], true), p[..n])
  {
    hide Divide, AugRun, Run, ReflectQ;
    ghost var data := buffer[start..start + count];
    ghost var unreflected := ReflectQ(n, remainder, true);
    r := ReflectSubByteRegister(remainder, n);
    DivideEmpty(n, r, p);
    var next, left := start, count;
    while left != 0
      invariant 0 <= left <= count && next == start + count - left && |r| == |p|
      invariant r == Divide(n, unreflected, Stream(data[..count - left], true), p, true)
    {
      DivideOneMore(n, unreflected, data, count - left, p, true, true);
      DivideCases(n, r, WordStream(buffer[next], 8, true), p);
      r := AugmentedCrcModuloWordUpdate(n, r, buffer[next], p, 8, true);
      next, left := next + 1, left - 1;
    }
    assert data[..count] == data;
    r := ReflectSubByteRegister(r, n);
    SubByteMeaning(n, remainder, data, p, true);
    DivideCases(n, Reverse(remainder[..n]), Stream(data, true), p[..n]);
  }

  method ReflectedSubByteCrcUpdate(n: nat, remainder: Register, buffer: array<Byte>, start: nat, count: nat,
                                   p: Register)
    returns (r: Register)
    requires 0 < n < 8 && n <= |remainder| == |p| && start + count <= buffer.Length
    ensures r == Update(n, remainder, buffer[start..start + count], p, true, false)
    ensures Reverse(r[..n])
         == Run(n, Reverse(remainder[..n]), Stream(buffer[start..start + count], true), p[..n])
  {
    hide Divide, AugRun, Run, ReflectQ;
    ghost var data := buffer[start..start + count];
    ghost var unreflected := ReflectQ(n, remainder, true);
    r := ReflectSubByteRegister(remainder, n);
    DivideEmpty(n, r, p);
    var next, left := start, count;
    while left != 0
      invariant 0 <= left <= count && next == start + count - left && |r| == |p|
      invariant r == Divide(n, unreflected, Stream(data[..count - left], true), p, false)
    {
      DivideOneMore(n, unreflected, data, count - left, p, true, false);
      DivideCases(n, r, WordStream(buffer[next], 8, true), p);
      r := CrcModuloWordUpdate(n, r, buffer[next], p, 8, true);
      next, left := next + 1, left - 1;
    }
    assert data[..count] == data;
    r := ReflectSubByteRegister(r, n);
    SubByteMeaning(n, remainder, data, p, false);
    DivideCases(n, Reverse(remainder[..n]), Stream(data, true), p[..n]);
  }

  lemma {:induction false} SubByteMeaning(n: nat, r: Register, data: seq<Byte>, p: Register, augmented: bool)
    requires 0 < n < 8 && n <= |r| == |p|
    ensures Reverse(Update(n, r, data, p, true, augmented)[..n])
         == Divide(n, Reverse(r[..n]), Stream(data, true), p[..n], augmented)
  {
    hide Divide, ReflectQ;
    ReflectQLow(n, r, true);
    ReflectQLow(n, Update(n, r, data, p, true, augmented), true);
    UpdateDivides(n, r, data, p, true, augmented);
  }

  // ----- crc_driver: the base class chosen by order and reflection

  method CrcUpdate(n: nat, remainder: Register, buffer: array<Byte>, start: nat, count: nat, p: Register, reflect: bool)
    returns (r: Register)
    requires 0 < n <= |remainder| == |p| && start + count <= buffer.Length
    ensures r == Update(n, remainder, buffer[start..start + count], p, reflect, false)
  {
    hide Run, AugRun;
    if n < 8 && reflect {
      r := ReflectedSubByteCrcUpdate(n, remainder, buffer, start, count, p);
    } else if n < 8 {
      r := DirectSubByteCrcUpdate(n, remainder, buffer, start, count, p);
    } else if reflect {
      r := ReflectedCrcUpdate(n, remainder, buffer, start, count, p);
    } else {
      r := DirectCrcUpdate(n, remainder, buffer, start, count, p);
    }
  }

  method AugmentedCrcUpdate(n: nat, remainder: Register, buffer: array<Byte>, start: nat, count: nat,
                            p: Register, reflect: bool)
    returns (r: Register)
    requires 0 < n <= |remainder| == |p| && start + count <= buffer.Length
    ensures r == Update(n, remainder, buffer[start..start + count], p, reflect, true)
  {
    hide Run, AugRun;
    if n < 8 && reflect {
      r := ReflectedSubByteAugmentedCrcUpdate(n, remainder, buffer, start, count, p);
    } else if n < 8 {
      r := DirectSubByteAugmentedCrcUpdate(n, remainder, buffer, start, count, p);
    } else if reflect {
      r := ReflectedAugmentedCrcUpdate(n, remainder, buffer, start, count, p);
    } else {
      r := DirectAugmentedCrcUpdate(n, remainder, buffer, start, count, p);
    }
  }
}
