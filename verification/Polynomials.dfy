/**
  Polynomials with coefficients modulo 2, constant term first, and what it means
  for a remainder to be the remainder of a division.  This module knows nothing of
  the stepwise dividers until its last section, which shows that they divide.
 */
module Polynomials {
  import opened Registers
  import opened Division

  type Polynomial = seq<bool>

  /** The schoolbook product. */
  function Mul(a: Polynomial, b: Polynomial): (c: Polynomial)
    requires 0 < |b|
    ensures |c| == |a| + |b| - 1
  {
    if |a| == 0 then Zeros(|b| - 1)
    else Xor([false] + Mul(a[1..], b), Resize(Scale(a[0], b), |a| + |b| - 1))
  }

  /** The divisor, whose leading coefficient the registers leave out. */
  function Divisor(p: Register): Polynomial {
    p + [true]
  }

  ghost predicate IsQuotient(q: Polynomial, d: Polynomial, p: Register, r: Register)
    requires |r| == |p| <= |d|
  {
    && |q| == |d| - |p|
    && d == Xor(Mul(q, Divisor(p)), Resize(r, |d|))
  }

  /** d = q * divisor + r for some q, where r has fewer terms than the divisor. */
  ghost predicate IsRemainder(d: Polynomial, p: Register, r: Register) {
    |r| == |p| <= |d| && exists q :: IsQuotient(q, d, p, r)
  }

  // ----- A remainder is unique

  lemma ScaleXor(a: bool, b: bool, c: Register, w: nat)
    ensures Resize(Scale(a != b, c), w) == Xor(Resize(Scale(a, c), w), Resize(Scale(b, c), w))
  {
  }

  lemma XorOfBits(a: bool)
    ensures Xor([false], [a]) == [a]
  {
  }

  lemma {:induction false} MulLinear(a: Polynomial, b: Polynomial, c: Polynomial)
    requires |a| == |b| && 0 < |c|
    ensures Mul(Xor(a, b), c) == Xor(Mul(a, c), Mul(b, c))
  {
    if |a| > 0 {
      MulLinear(a[1..], b[1..], c);
      assert Xor(a, b)[1..] == Xor(a[1..], b[1..]);
      hide Mul;
      var w := |a| + |c| - 1;
      XorConcat([false], Mul(a[1..], c), [false], Mul(b[1..], c));
      XorOfBits(false);
      ScaleXor(a[0], b[0], c, w);
      XorInterchange([false] + Mul(a[1..], c), [false] + Mul(b[1..], c),
                     Resize(Scale(a[0], c), w), Resize(Scale(b[0], c), w));
    } else {
      assert Xor(a, b) == a == b == [];
      XorZeros(Zeros(|c| - 1));
    }
  }

  lemma {:induction false} MulZeros(k: nat, c: Polynomial)
    requires 0 < |c|
    ensures Mul(Zeros(k), c) == Zeros(k + |c| - 1)
  {
    if k > 0 {
      MulZeros(k - 1, c);
      assert Zeros(k)[1..] == Zeros(k - 1);
    }
  }

  /** A multiple of the divisor, other than zero, reaches beyond the remainders. */
  lemma {:induction false} MulReachesHigh(q: Polynomial, p: Register) returns (i: nat)
    requires q != Zeros(|q|)
    ensures |p| <= i < |q| + |p| && Mul(q, Divisor(p))[i]
  {
    if q[1..] != Zeros(|q| - 1) {
      i := MulReachesHigh(q[1..], p);
      i := i + 1;
    } else {
      MulZeros(|q| - 1, Divisor(p));
      assert q == [q[0]] + q[1..];
      assert q[0];
      i := |p|;
    }
  }

  /** Two ways to write d as a high part plus a short remainder. */
  lemma Decompositions(d: Polynomial, m: Polynomial, l: Polynomial, r: Register, s: Register)
    requires |d| == |m| == |l| >= |r| == |s|
    requires d == Xor(m, Resize(r, |d|)) && d == Xor(l, Resize(s, |d|))
    ensures forall i :: |r| <= i < |d| ==> !Xor(m, l)[i]
    ensures m == l ==> r == s
  {
    assert forall i :: 0 <= i < |d| ==> d[i] == (m[i] != Resize(r, |d|)[i]);
    assert forall i :: 0 <= i < |d| ==> d[i] == (l[i] != Resize(s, |d|)[i]);
    if m == l {
      assert forall i :: 0 <= i < |r| ==> r[i] == Resize(r, |d|)[i] && s[i] == Resize(s, |d|)[i];
    }
  }

  lemma RemainderUnique(d: Polynomial, p: Register, r: Register, s: Register)
    requires IsRemainder(d, p, r) && IsRemainder(d, p, s)
    ensures r == s
  {
    var q :| IsQuotient(q, d, p, r);
    var t :| IsQuotient(t, d, p, s);
    QuotientsCoincide(d, p, q, t, r, s);
  }

  lemma QuotientsCoincide(d: Polynomial, p: Register, q: Polynomial, t: Polynomial, r: Register, s: Register)
    requires |r| == |s| == |p| <= |d|
    requires IsQuotient(q, d, p, r) && IsQuotient(t, d, p, s)
    ensures q == t && r == s
  {
    hide Mul, Xor, Resize, Zeros;
    var m, l := Mul(q, Divisor(p)), Mul(t, Divisor(p));
    Decompositions(d, m, l, r, s);
    MulLinear(q, t, Divisor(p));
    var e := Xor(q, t);
    if e != Zeros(|e|) {
      var i := MulReachesHigh(e, p);
      assert false;
    }
    XorCancels(q, t);
    XorZeros(q);
  }

  // ----- The dividers divide

  /** r * x^k + w * x^n, for a word w of k bits read from x^(k-1) down */
  function Dividend(r: Register, w: seq<bool>): (d: Polynomial)
    ensures |d| == |r| + |w|
  {
    Xor(Zeros(|w|) + r, Zeros(|r|) + Reverse(w))
  }

  /** r * x^k + w */
  function AugmentedDividend(r: Register, w: seq<bool>): (d: Polynomial)
    ensures |d| == |r| + |w|
  {
    Xor(Zeros(|w|) + r, Resize(Reverse(w), |r| + |w|))
  }

  lemma MulOneMore(q: Polynomial, quotient: bool, p: Register)
    ensures Mul([quotient] + q, Divisor(p))
         == Xor([false] + Mul(q, Divisor(p)), Resize(Scale(quotient, Divisor(p)), |q| + |p| + 1))
  {
    assert ([quotient] + q)[1..] == q;
  }

  /** The step itself: x * r + bit * x^n = quotient * divisor + r'. */
  lemma StepIdentity(r: Register, bit: bool, p: Register, w: nat)
    requires 0 < |r| == |p| < w
    ensures Xor([false] + Resize(r, w - 1), Scale(bit, OneHot(w, |r|)))
         == Xor(Resize(Scale(r[|r| - 1] != bit, Divisor(p)), w), Resize(Step(|r|, r, bit, p), w))
  {
    var n, quotient := |r|, r[|r| - 1] != bit;
    var left := Xor([false] + Resize(r, w - 1), Scale(bit, OneHot(w, n)));
    var right := Xor(Resize(Scale(quotient, Divisor(p)), w), Resize(Step(n, r, bit, p), w));
    assert Scale(quotient, Divisor(p)) == Scale(quotient, p) + [quotient];
    forall i | 0 <= i < w
      ensures left[i] == right[i]
    {
      if i < n {
        assert Step(n, r, bit, p)[i] == ((i > 0 && r[i - 1]) != (quotient && p[i]));
      }
    }
  }

  lemma AugStepIdentity(r: Register, bit: bool, p: Register, w: nat)
    requires 0 < |r| == |p| < w
    ensures [bit] + Resize(r, w - 1)
         == Xor(Resize(Scale(r[|r| - 1], Divisor(p)), w), Resize(AugStep(|r|, r, bit, p), w))
  {
    assert Scale(r[|r| - 1], Divisor(p)) == Scale(r[|r| - 1], p) + [r[|r| - 1]];
  }

  /** One more dividend bit: from (d, q, r) to (d * x + bit * x^n, q * x + quotient, r'). */
  lemma QuotientStep(d: Polynomial, q: Polynomial, r: Register, bit: bool, p: Register)
    requires 0 < |r| == |p| <= |d| && IsQuotient(q, d, p, r)
    ensures IsQuotient([r[|r| - 1] != bit] + q,
                       Xor([false] + d, Scale(bit, OneHot(|d| + 1, |r|))),
                       p, Step(|r|, r, bit, p))
  {
    hide Mul, Xor, Resize, Scale, OneHot, Step, Divisor;
    var w, quotient := |d| + 1, r[|r| - 1] != bit;
    var m, x, b := Mul(q, Divisor(p)), Resize(r, |d|), Scale(bit, OneHot(w, |r|));
    MulOneMore(q, quotient, p);
    StepIdentity(r, bit, p, w);
    XorConcat([false], m, [false], x);
    XorOfBits(false);
    XorAssociates([false] + m, [false] + x, b);
    XorAssociates([false] + m, Resize(Scale(quotient, Divisor(p)), w), Resize(Step(|r|, r, bit, p), w));
  }

  lemma AugmentedQuotientStep(d: Polynomial, q: Polynomial, r: Register, bit: bool, p: Register)
    requires 0 < |r| == |p| <= |d| && IsQuotient(q, d, p, r)
    ensures IsQuotient([r[|r| - 1]] + q, [bit] + d, p, AugStep(|r|, r, bit, p))
  {
    hide Mul, Xor, Resize, Scale, AugStep, Divisor;
    var w, quotient := |d| + 1, r[|r| - 1];
    var m, x := Mul(q, Divisor(p)), Resize(r, |d|);
    MulOneMore(q, quotient, p);
    AugStepIdentity(r, bit, p, w);
    XorConcat([false], m, [bit], x);
    XorOfBits(bit);
    XorAssociates([false] + m, Resize(Scale(quotient, Divisor(p)), w), Resize(AugStep(|r|, r, bit, p), w));
  }

  lemma DividendEmpty(r: Register, p: Register)
    requires |r| == |p|
    ensures Dividend(r, []) == r == AugmentedDividend(r, [])
    ensures IsQuotient([], r, p, r)
  {
    assert Zeros(0) + r == r;
  }

  lemma DividendStep(r: Register, w: seq<bool>, bit: bool)
    ensures Dividend(r, w + [bit])
         == Xor([false] + Dividend(r, w), Scale(bit, OneHot(|r| + |w| + 1, |r|)))
  {
    var d, d' := Dividend(r, w), Dividend(r, w + [bit]);
    forall i | 0 <= i < |d'|
      ensures d'[i] == Xor([false] + d, Scale(bit, OneHot(|r| + |w| + 1, |r|)))[i]
    {
    }
  }

  lemma AugmentedDividendStep(r: Register, w: seq<bool>, bit: bool)
    ensures AugmentedDividend(r, w + [bit]) == [bit] + AugmentedDividend(r, w)
  {
  }

  lemma {:induction false} RunQuotient(r: Register, w: seq<bool>, p: Register) returns (q: Polynomial)
    requires 0 < |r| == |p|
    ensures IsQuotient(q, Dividend(r, w), p, Run(|r|, r, w, p))
    decreases |w|
  {
    hide Step, Mul, Xor, Resize, Dividend, AugmentedDividend, IsQuotient;
    if |w| == 0 {
      DividendEmpty(r, p);
      q := [];
    } else {
      var init, bit := w[..|w| - 1], w[|w| - 1];
      q := RunQuotient(r, init, p);
      var s := Run(|r|, r, init, p);
      QuotientStep(Dividend(r, init), q, s, bit, p);
      q := [s[|r| - 1] != bit] + q;
      DividendStep(r, init, bit);
      assert w == init + [bit];
    }
  }

  lemma {:induction false} AugRunQuotient(r: Register, w: seq<bool>, p: Register) returns (q: Polynomial)
    requires 0 < |r| == |p|
    ensures IsQuotient(q, AugmentedDividend(r, w), p, AugRun(|r|, r, w, p))
    decreases |w|
  {
    hide AugStep, Mul, Xor, Resize, Dividend, AugmentedDividend, IsQuotient;
    if |w| == 0 {
      DividendEmpty(r, p);
      q := [];
    } else {
      var init, bit := w[..|w| - 1], w[|w| - 1];
      q := AugRunQuotient(r, init, p);
      var s := AugRun(|r|, r, init, p);
      AugmentedQuotientStep(AugmentedDividend(r, init), q, s, bit, p);
      q := [s[|r| - 1]] + q;
      AugmentedDividendStep(r, init, bit);
      assert w == init + [bit];
    }
  }

  /** The unaugmented run is (r * x^k + w * x^n) modulo the divisor, and nothing else is. */
  lemma {:induction false} RunIsRemainder(r: Register, w: seq<bool>, p: Register, s: Register)
    requires 0 < |r| == |p|
    ensures IsRemainder(Dividend(r, w), p, s) <==> s == Run(|r|, r, w, p)
  {
    var q := RunQuotient(r, w, p);
    if IsRemainder(Dividend(r, w), p, s) {
      RemainderUnique(Dividend(r, w), p, s, Run(|r|, r, w, p));
    }
  }

  /** The augmented run is (r * x^k + w) modulo the divisor, and nothing else is. */
  lemma {:induction false} AugRunIsRemainder(r: Register, w: seq<bool>, p: Register, s: Register)
    requires 0 < |r| == |p|
    ensures IsRemainder(AugmentedDividend(r, w), p, s) <==> s == AugRun(|r|, r, w, p)
  {
    var q := AugRunQuotient(r, w, p);
    if IsRemainder(AugmentedDividend(r, w), p, s) {
      RemainderUnique(AugmentedDividend(r, w), p, s, AugRun(|r|, r, w, p));
    }
  }

  /** n zero bits multiply the remainder by x^n. */
  lemma {:induction false} AugmentedIsProduct(r: Register, p: Register, s: Register)
    requires 0 < |r| == |p|
    ensures IsRemainder(Zeros(|r|) + r, p, s) <==> s == Augmented(|r|, r, p)
  {
    hide AugRun, IsRemainder;
    var n := |r|;
    AugRunIsRemainder(r, Zeros(n), p, s);
    assert AugmentedDividend(r, Zeros(n)) == Zeros(n) + r;
  }
}
