/** The word-at-a-time dividers: loops over the bits of a word, by either end. */
module Dividers {
  import opened Registers
  import opened Division
  import opened Polynomials
  import opened Reflection

  /** The low k bits of a word in the order in which a divider reads them. */
  function WordStream(word: Register, k: nat, reflect: bool): (ms: seq<bool>)
    requires k <= |word|
    ensures |ms| == k
  {
    if reflect then word[..k] else Reverse(word[..k])
  }

  lemma TestBit(a: Register, i: nat)
    requires i < |a|
    ensures And(a, OneHot(|a|, i)) != Zeros(|a|) <==> a[i]
  {
    var t := And(a, OneHot(|a|, i));
    assert t[i] == a[i];
    if !a[i] { assert t == Zeros(|a|); }
  }

  lemma ReadingOrder(word: Register, k: nat, reflect: bool)
    requires 0 < k <= |word|
    ensures (if !reflect then Reflect(word, k) else word)[..k] == WordStream(word, k, reflect)
  {
  }

  /** One turn of the unaugmented loop, operator by operator. */
  lemma StepByMasks(n: nat, r: Register, bit: bool, p: Register)
    requires 0 < n <= |r| == |p|
    ensures var mask := OneHot(|r|, n - 1);
            var s := Xor(r, Scale(bit, mask));
            Xor(Shl(s, 1), Scale(And(s, mask) != Zeros(|r|), p)) == Step(n, r, bit, p)
  {
    var s := Xor(r, Scale(bit, OneHot(|r|, n - 1)));
    TestBit(s, n - 1);
    assert s == r[n - 1 := r[n - 1] != bit];
  }

  /** The next word: its lowest bit is consumed. */
  lemma ShiftedWord(bits: Register, ms: seq<bool>, i: nat)
    requires 0 < i <= |bits| && i <= |ms|
    requires bits[..i] == ms[|ms| - i..]
    ensures Shr(bits, 1)[..i - 1] == ms[|ms| - (i - 1)..]
    ensures bits[0] == ms[|ms| - i]
    ensures And(bits, OneHot(|bits|, 0)) != Zeros(|bits|) <==> bits[0]
  {
    TestBit(bits, 0);
    assert ms[|ms| - i] == bits[..i][0];
    forall j | 0 <= j < i - 1
      ensures Shr(bits, 1)[j] == ms[|ms| - (i - 1) + j]
    {
      assert bits[j + 1] == bits[..i][j + 1];
    }
  }

  lemma RunOneMore(n: nat, r: Register, ms: seq<bool>, k: nat, p: Register)
    requires 0 < n <= |r| == |p| && k < |ms|
    ensures Run(n, r, ms[..k + 1], p) == Step(n, Run(n, r, ms[..k], p), ms[k], p)
    ensures AugRun(n, r, ms[..k + 1], p) == AugStep(n, AugRun(n, r, ms[..k], p), ms[k], p)
    ensures Run(n, r, ms[..0], p) == r == AugRun(n, r, ms[..0], p)
  {
    assert ms[..k + 1][..k] == ms[..k];
  }

  lemma RunDivides(n: nat, r: Register, ms: seq<bool>, p: Register)
    requires 0 < n <= |r| == |p|
    ensures IsRemainder(Dividend(r[..n], ms), p[..n], Run(n, r, ms, p)[..n])
    ensures IsRemainder(AugmentedDividend(r[..n], ms), p[..n], AugRun(n, r, ms, p)[..n])
  {
    hide *;
    RunLow(n, r, ms, p);
    AugRunLow(n, r, ms, p);
    RunIsRemainder(r[..n], ms, p[..n], Run(n, r, ms, p)[..n]);
    AugRunIsRemainder(r[..n], ms, p[..n], AugRun(n, r, ms, p)[..n]);
  }

  method CrcModuloWordUpdate(n: nat, remainder: Register, newDividendBits: Register,
                             truncatedDivisor: Register, wordLength: nat, reflect: bool)
    returns (r: Register)
    requires 0 < n <= |remainder| == |truncatedDivisor|
    requires 0 < wordLength <= |newDividendBits|
    ensures r == Run(n, remainder, WordStream(newDividendBits, wordLength, reflect), truncatedDivisor)
    ensures IsRemainder(Dividend(remainder[..n], WordStream(newDividendBits, wordLength, reflect)),
                        truncatedDivisor[..n], r[..n])
  {
    hide *;
    var highBitMask := OneHot(|remainder|, n - 1);
    var bits := ReflectOptionally(newDividendBits, !reflect, wordLength);
    ghost var ms := WordStream(newDividendBits, wordLength, reflect);
    ReadingOrder(newDividendBits, wordLength, reflect);
    r := remainder;
    RunOneMore(n, remainder, ms, 0, truncatedDivisor);
    var i := wordLength;
    while i != 0
      invariant 0 <= i <= wordLength && |bits| == |newDividendBits|
      invariant bits[..i] == ms[wordLength - i..]
      invariant r == Run(n, remainder, ms[..wordLength - i], truncatedDivisor)
    {
      ShiftedWord(bits, ms, i);
      RunOneMore(n, remainder, ms, wordLength - i, truncatedDivisor);
      StepByMasks(n, r, bits[0], truncatedDivisor);
      r := Xor(r, Scale(And(bits, OneHot(|bits|, 0)) != Zeros(|bits|), highBitMask));
      var quotient := And(r, highBitMask) != Zeros(|r|);
      r := Shl(r, 1);
      r := Xor(r, Scale(quotient, truncatedDivisor));
      i := i - 1;
      bits := Shr(bits, 1);
    }
    assert ms[..wordLength] == ms;
    RunDivides(n, remainder, ms, truncatedDivisor);
  }

  /** A single bit. */
  method CrcModuloUpdate(n: nat, remainder: Register, newDividendBit: bool, truncatedDivisor: Register)
    returns (r: Register)
    requires 0 < n <= |remainder| == |truncatedDivisor|
    ensures r == Run(n, remainder, [newDividendBit], truncatedDivisor)
  {
    r := CrcModuloWordUpdate(n, remainder, [newDividendBit], truncatedDivisor, 1, false);
    assert WordStream([newDividendBit], 1, false) == [newDividendBit];
  }

  lemma AugStepByMasks(n: nat, r: Register, bit: bool, p: Register)
    requires 0 < n <= |r| == |p|
    ensures Xor(Or(Shl(r, 1), Scale(bit, OneHot(|r|, 0))),
                Scale(And(r, OneHot(|r|, n - 1)) != Zeros(|r|), p)) == AugStep(n, r, bit, p)
  {
    TestBit(r, n - 1);
    assert Or(Shl(r, 1), Scale(bit, OneHot(|r|, 0))) == Shl(r, 1)[0 := bit];
  }

  /** `value & 1u`, converted to a register of width w */
  lemma LowestBit(bits: Register, w: nat)
    requires 0 < |bits| && 0 < w
    ensures Resize(And(bits, OneHot(|bits|, 0)), w) == Scale(bits[0], OneHot(w, 0))
  {
  }

  method AugmentedCrcModuloWordUpdate(n: nat, remainder: Register, newDividendBits: Register,
                                      truncatedDivisor: Register, wordLength: nat, reflect: bool)
    returns (r: Register)
    requires 0 < n <= |remainder| == |truncatedDivisor|
    requires 0 < wordLength <= |newDividendBits|
    ensures r == AugRun(n, remainder, WordStream(newDividendBits, wordLength, reflect), truncatedDivisor)
    ensures IsRemainder(AugmentedDividend(remainder[..n], WordStream(newDividendBits, wordLength, reflect)),
                        truncatedDivisor[..n], r[..n])
  {
    hide *;
    var highBitMask := OneHot(|remainder|, n - 1);
    var bits := ReflectOptionally(newDividendBits, !reflect, wordLength);
    ghost var ms := WordStream(newDividendBits, wordLength, reflect);
    ReadingOrder(newDividendBits, wordLength, reflect);
    r := remainder;
    RunOneMore(n, remainder, ms, 0, truncatedDivisor);
    var i := wordLength;
    while i != 0
      invariant 0 <= i <= wordLength && |bits| == |newDividendBits|
      invariant bits[..i] == ms[wordLength - i..]
      invariant r == AugRun(n, remainder, ms[..wordLength - i], truncatedDivisor)
    {
      ShiftedWord(bits, ms, i);
      RunOneMore(n, remainder, ms, wordLength - i, truncatedDivisor);
      AugStepByMasks(n, r, bits[0], truncatedDivisor);
      LowestBit(bits, |r|);
      var quotient := And(r, highBitMask) != Zeros(|r|);
      r := Shl(r, 1);
      r := Or(r, Resize(And(bits, OneHot(|bits|, 0)), |r|));
      r := Xor(r, Scale(quotient, truncatedDivisor));
      i := i - 1;
      bits := Shr(bits, 1);
    }
    assert ms[..wordLength] == ms;
    RunDivides(n, remainder, ms, truncatedDivisor);
  }

  /** A single bit. */
  method AugmentedCrcModuloUpdate(n: nat, remainder: Register, newDividendBit: bool, truncatedDivisor: Register)
    returns (r: Register)
    requires 0 < n <= |remainder| == |truncatedDivisor|
    ensures r == AugRun(n, remainder, [newDividendBit], truncatedDivisor)
  {
    r := AugmentedCrcModuloWordUpdate(n, remainder, [newDividendBit], truncatedDivisor, 1, false);
    assert WordStream([newDividendBit], 1, false) == [newDividendBit];
  }
}
