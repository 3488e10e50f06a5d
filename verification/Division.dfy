/**
  The two modulo-2 division steps, run over a stream of dividend bits (first bit
  first).  Both act on registers that may be wider than the order n; with
  |r| == n they are division on remainders proper.
 */
module Division {
  import opened Registers

  /** One turn of the loop in crc_modulo_word_update. */
  function Step(n: nat, r: Register, bit: bool, p: Register): (r': Register)
    requires 0 < n <= |r| == |p|
    ensures |r'| == |r|
  {
    var quotient := r[n - 1] != bit;
    Xor(Shl(r[n - 1 := quotient], 1), Scale(quotient, p))
  }

  /** One turn of the loop in augmented_crc_modulo_word_update. */
  function AugStep(n: nat, r: Register, bit: bool, p: Register): (r': Register)
    requires 0 < n <= |r| == |p|
    ensures |r'| == |r|
  {
    Xor(Shl(r, 1)[0 := bit], Scale(r[n - 1], p))
  }

  function Run(n: nat, r: Register, ms: seq<bool>, p: Register): (r': Register)
    requires 0 < n <= |r| == |p|
    ensures |r'| == |r|
    decreases |ms|
  {
    if |ms| == 0 then r
    else Step(n, Run(n, r, ms[..|ms| - 1], p), ms[|ms| - 1], p)
  }

  function AugRun(n: nat, r: Register, ms: seq<bool>, p: Register): (r': Register)
    requires 0 < n <= |r| == |p|
    ensures |r'| == |r|
    decreases |ms|
  {
    if |ms| == 0 then r
    else AugStep(n, AugRun(n, r, ms[..|ms| - 1], p), ms[|ms| - 1], p)
  }

  // ----- Consecutive runs

  lemma {:induction false} RunConcat(n: nat, r: Register, a: seq<bool>, b: seq<bool>, p: Register)
    requires 0 < n <= |r| == |p|
    ensures Run(n, r, a + b, p) == Run(n, Run(n, r, a, p), b, p)
    decreases |b|
  {
    if |b| == 0 {
      assert a + b == a;
    } else {
      RunConcat(n, r, a, b[..|b| - 1], p);
      assert (a + b)[..|a + b| - 1] == a + b[..|b| - 1];
    }
  }

  lemma {:induction false} AugRunConcat(n: nat, r: Register, a: seq<bool>, b: seq<bool>, p: Register)
    requires 0 < n <= |r| == |p|
    ensures AugRun(n, r, a + b, p) == AugRun(n, AugRun(n, r, a, p), b, p)
    decreases |b|
  {
    if |b| == 0 {
      assert a + b == a;
    } else {
      AugRunConcat(n, r, a, b[..|b| - 1], p);
      assert (a + b)[..|a + b| - 1] == a + b[..|b| - 1];
    }
  }

  // ----- Only the low n bits of a wide register matter to the low n bits

  lemma StepLow(n: nat, r: Register, bit: bool, p: Register)
    requires 0 < n <= |r| == |p|
    ensures Step(n, r, bit, p)[..n] == Step(n, r[..n], bit, p[..n])
    ensures AugStep(n, r, bit, p)[..n] == AugStep(n, r[..n], bit, p[..n])
  {
  }

  lemma {:induction false} RunLow(n: nat, r: Register, ms: seq<bool>, p: Register)
    requires 0 < n <= |r| == |p|
    ensures Run(n, r, ms, p)[..n] == Run(n, r[..n], ms, p[..n])
    decreases |ms|
  {
    hide Step;
    if |ms| > 0 {
      RunLow(n, r, ms[..|ms| - 1], p);
      StepLow(n, Run(n, r, ms[..|ms| - 1], p), ms[|ms| - 1], p);
    }
  }

  lemma {:induction false} AugRunLow(n: nat, r: Register, ms: seq<bool>, p: Register)
    requires 0 < n <= |r| == |p|
    ensures AugRun(n, r, ms, p)[..n] == AugRun(n, r[..n], ms, p[..n])
    decreases |ms|
  {
    hide AugStep;
    if |ms| > 0 {
      AugRunLow(n, r, ms[..|ms| - 1], p);
      StepLow(n, AugRun(n, r, ms[..|ms| - 1], p), ms[|ms| - 1], p);
    }
  }

  // ----- Both runs are linear over xor, carry bits included

  lemma StepLinear(n: nat, r: Register, s: Register, a: bool, b: bool, p: Register)
    requires 0 < n <= |r| == |s| == |p|
    ensures Step(n, Xor(r, s), a != b, p) == Xor(Step(n, r, a, p), Step(n, s, b, p))
    ensures AugStep(n, Xor(r, s), a != b, p) == Xor(AugStep(n, r, a, p), AugStep(n, s, b, p))
  {
  }

  lemma {:induction false} RunLinear(n: nat, r: Register, s: Register, a: seq<bool>, b: seq<bool>, p: Register)
    requires 0 < n <= |r| == |s| == |p| && |a| == |b|
    ensures Run(n, Xor(r, s), Xor(a, b), p) == Xor(Run(n, r, a, p), Run(n, s, b, p))
    decreases |a|
  {
    if |a| > 0 {
      var k := |a| - 1;
      RunLinear(n, r, s, a[..k], b[..k], p);
      assert Xor(a, b)[..k] == Xor(a[..k], b[..k]);
      StepLinear(n, Run(n, r, a[..k], p), Run(n, s, b[..k], p), a[k], b[k], p);
    }
  }

  lemma {:induction false} AugRunLinear(n: nat, r: Register, s: Register, a: seq<bool>, b: seq<bool>, p: Register)
    requires 0 < n <= |r| == |s| == |p| && |a| == |b|
    ensures AugRun(n, Xor(r, s), Xor(a, b), p) == Xor(AugRun(n, r, a, p), AugRun(n, s, b, p))
    decreases |a|
  {
    if |a| > 0 {
      var k := |a| - 1;
      AugRunLinear(n, r, s, a[..k], b[..k], p);
      assert Xor(a, b)[..k] == Xor(a[..k], b[..k]);
      StepLinear(n, AugRun(n, r, a[..k], p), AugRun(n, s, b[..k], p), a[k], b[k], p);
    }
  }

  lemma {:induction false} RunZeros(n: nat, k: nat, p: Register)
    requires 0 < n <= |p|
    ensures Run(n, Zeros(|p|), Zeros(k), p) == Zeros(|p|)
  {
    if k > 0 {
      RunZeros(n, k - 1, p);
      assert Zeros(k)[..k - 1] == Zeros(k - 1);
      assert Step(n, Zeros(|p|), false, p) == Zeros(|p|);
    }
  }

  lemma StepsAgreeOnZero(n: nat, s: Register, p: Register)
    requires 0 < n <= |s| == |p|
    ensures Step(n, s, false, p) == AugStep(n, s, false, p)
  {
    assert s[n - 1 := s[n - 1]] == s;
    assert Shl(s, 1)[0 := false] == Shl(s, 1);
  }

  /** Padding with zero bits, the two kinds of step are the same step. */
  lemma {:induction false} RunsAgreeOnZeros(n: nat, r: Register, k: nat, p: Register)
    requires 0 < n <= |r| == |p|
    ensures Run(n, r, Zeros(k), p) == AugRun(n, r, Zeros(k), p)
  {
    hide Step, AugStep;
    if k > 0 {
      RunsAgreeOnZeros(n, r, k - 1, p);
      assert Zeros(k)[..k - 1] == Zeros(k - 1);
      StepsAgreeOnZero(n, Run(n, r, Zeros(k - 1), p), p);
    }
  }

  // ----- Up to n bits at once: compare them with the register's leading bits

  /** The k highest bits, highest first. */
  function Top(r: Register, k: nat): (t: seq<bool>)
    requires k <= |r|
    ensures |t| == k
  {
    seq(k, i requires 0 <= i < k => r[|r| - 1 - i])
  }

  lemma CancelStep(r: Register, k: nat, p: Register)
    requires 0 < |r| == |p| && k < |r|
    ensures Step(|r|, Shl(r, k), Top(r, k + 1)[k], p) == Shl(r, k + 1)
    ensures Top(r, k + 1)[..k] == Top(r, k)
  {
    assert Shl(r, k)[|r| - 1] == Top(r, k + 1)[k];
  }

  /** Bits that cancel the leading bits of the register only shift it. */
  lemma {:induction false} RunCancels(r: Register, k: nat, p: Register)
    requires 0 < |r| == |p| && k <= |r|
    ensures Run(|r|, r, Top(r, k), p) == Shl(r, k)
  {
    if k == 0 {
      assert Shl(r, 0) == r;
    } else {
      hide Step, Shl, Top;
      RunCancels(r, k - 1, p);
      CancelStep(r, k - 1, p);
    }
  }

  lemma {:induction false} RunFold(r: Register, ms: seq<bool>, p: Register)
    requires 0 < |r| == |p| && |ms| <= |r|
    ensures Run(|r|, r, ms, p)
         == Xor(Shl(r, |ms|), Run(|r|, Zeros(|r|), Xor(Top(r, |ms|), ms), p))
  {
    var t := Top(r, |ms|);
    XorZeros(r);
    XorCancels(t, ms);
    RunLinear(|r|, r, Zeros(|r|), t, Xor(t, ms), p);
    RunCancels(r, |ms|, p);
  }

  lemma StoreOneMore(n: nat, ms: seq<bool>, bit: bool, p: Register)
    requires 0 < n == |p| && |ms| < n
    ensures AugStep(n, Resize(Reverse(ms), n), bit, p) == Resize(Reverse(ms + [bit]), n)
  {
    assert Reverse(ms + [bit]) == [bit] + Reverse(ms);
  }

  /** Up to n bits read into an empty register are just stored. */
  lemma {:induction false} AugRunStores(n: nat, ms: seq<bool>, p: Register)
    requires 0 < n == |p| && |ms| <= n
    ensures AugRun(n, Zeros(n), ms, p) == Resize(Reverse(ms), n)
    decreases |ms|
  {
    var k := |ms|;
    if k == 0 {
      assert Resize(Reverse(ms), n) == Zeros(n);
    } else {
      hide AugStep, Resize, Reverse;
      AugRunStores(n, ms[..k - 1], p);
      StoreOneMore(n, ms[..k - 1], ms[k - 1], p);
      assert ms[..k - 1] + [ms[k - 1]] == ms;
    }
  }

  lemma {:induction false} AugRunFold(r: Register, ms: seq<bool>, p: Register)
    requires 0 < |r| == |p| && |ms| <= |r|
    ensures AugRun(|r|, r, ms, p)
         == Xor(Xor(Shl(r, |ms|), Run(|r|, Zeros(|r|), Top(r, |ms|), p)), Resize(Reverse(ms), |r|))
  {
    var n, z := |r|, Zeros(|ms|);
    XorZeros(r);
    XorZeros(ms);
    AugRunLinear(n, r, Zeros(n), z, ms, p);
    AugRunStores(n, ms, p);
    RunsAgreeOnZeros(n, r, |ms|, p);
    RunFold(r, z, p);
    XorZeros(Top(r, |ms|));
  }

  // ----- The augment string: n zero bits multiply the remainder by x^n

  /** r * x^n modulo the divisor */
  function Augmented(n: nat, r: Register, p: Register): (r': Register)
    requires 0 < n <= |r| == |p|
    ensures |r'| == |r|
  {
    AugRun(n, r, Zeros(n), p)
  }

  /** What a dividend bit adds in an unaugmented step: x^n, unless the register ends there, and p. */
  function BitEffect(n: nat, p: Register): (e: Register)
    ensures |e| == |p|
  {
    Xor(OneHot(|p|, n), p)
  }

  lemma {:induction false} ShiftOne(n: nat, k: nat, p: Register)
    requires k < n <= |p|
    ensures AugRun(n, OneHot(|p|, 0), Zeros(k), p) == OneHot(|p|, k)
  {
    if k > 0 {
      ShiftOne(n, k - 1, p);
      assert Zeros(k)[..k - 1] == Zeros(k - 1);
      assert AugStep(n, OneHot(|p|, k - 1), false, p) == OneHot(|p|, k);
    }
  }

  /** x^n modulo the divisor is the truncated divisor (with the carry, in a wide register). */
  lemma AugmentedOne(n: nat, p: Register)
    requires 0 < n <= |p|
    ensures Augmented(n, OneHot(|p|, 0), p) == BitEffect(n, p)
  {
    ShiftOne(n, n - 1, p);
    assert Zeros(n)[..n - 1] == Zeros(n - 1);
    assert AugStep(n, OneHot(|p|, n - 1), false, p) == BitEffect(n, p);
  }

  lemma AugRunSingle(n: nat, r: Register, bit: bool, p: Register)
    requires 0 < n <= |r| == |p|
    ensures AugRun(n, r, [bit], p) == AugStep(n, r, bit, p)
  {
    assert [bit][..0] == [];
  }

  lemma AugmentedStepZero(n: nat, r: Register, p: Register)
    requires 0 < n <= |r| == |p|
    ensures Augmented(n, AugStep(n, r, false, p), p) == AugStep(n, Augmented(n, r, p), false, p)
  {
    AugRunConcat(n, r, [false], Zeros(n), p);
    AugRunConcat(n, r, Zeros(n), [false], p);
    assert [false] + Zeros(n) == Zeros(n) + [false];
    AugRunSingle(n, r, false, p);
    AugRunSingle(n, Augmented(n, r, p), false, p);
  }

  lemma StepsApart(n: nat, r: Register, bit: bool, p: Register)
    requires 0 < n <= |r| == |p|
    ensures AugStep(n, r, bit, p) == Xor(AugStep(n, r, false, p), Scale(bit, OneHot(|p|, 0)))
    ensures Step(n, r, bit, p) == Xor(AugStep(n, r, false, p), Scale(bit, BitEffect(n, p)))
  {
    assert Step(n, r, bit, p) == Xor(AugStep(n, r, false, p), Scale(bit, BitEffect(n, p)));
  }

  lemma AugmentedScaledOne(n: nat, bit: bool, p: Register)
    requires 0 < n <= |p|
    ensures Augmented(n, Scale(bit, OneHot(|p|, 0)), p) == Scale(bit, BitEffect(n, p))
  {
    if bit {
      AugmentedOne(n, p);
    } else {
      RunZeros(n, n, p);
      RunsAgreeOnZeros(n, Zeros(|p|), n, p);
    }
  }

  /** The unaugmented step is the augmented step carried through * x^n. */
  lemma AugmentedStep(n: nat, r: Register, bit: bool, p: Register)
    requires 0 < n <= |r| == |p|
    ensures Augmented(n, AugStep(n, r, bit, p), p) == Step(n, Augmented(n, r, p), bit, p)
  {
    hide Run, AugRun, Step, AugStep, Xor, Scale, OneHot, BitEffect;
    var s, one := AugStep(n, r, false, p), Scale(bit, OneHot(|p|, 0));
    StepsApart(n, r, bit, p);
    XorZeros(Zeros(n));
    AugRunLinear(n, s, one, Zeros(n), Zeros(n), p);
    AugmentedStepZero(n, r, p);
    AugmentedScaledOne(n, bit, p);
    StepsApart(n, Augmented(n, r, p), bit, p);
  }

  /** An augmented run over the message and n zero bits is an unaugmented run over the message. */
  lemma {:induction false} AugmentedRun(n: nat, r: Register, ms: seq<bool>, p: Register)
    requires 0 < n <= |r| == |p|
    ensures Augmented(n, AugRun(n, r, ms, p), p) == Run(n, Augmented(n, r, p), ms, p)
    ensures AugRun(n, r, ms + Zeros(n), p) == Run(n, Augmented(n, r, p), ms, p)
    decreases |ms|
  {
    if |ms| > 0 {
      var init := ms[..|ms| - 1];
      AugmentedRun(n, r, init, p);
      AugmentedStep(n, AugRun(n, r, init, p), ms[|ms| - 1], p);
    }
    AugRunConcat(n, r, ms, Zeros(n), p);
  }

  // ----- Which bursts a divisor can see

  lemma StepInjective(r: Register, s: Register, bit: bool, p: Register)
    requires 0 < |r| == |s| == |p| && p[0]
    requires Step(|r|, r, bit, p) == Step(|s|, s, bit, p)
    ensures r == s
  {
    var n := |r|;
    var r', s' := Step(n, r, bit, p), Step(n, s, bit, p);
    assert r'[0] == (r[n - 1] != bit) && s'[0] == (s[n - 1] != bit);
    forall i | 0 <= i < n
      ensures r[i] == s[i]
    {
      if i < n - 1 {
        assert r'[i + 1] == s'[i + 1];
      }
    }
  }

  lemma {:induction false} RunInjective(r: Register, s: Register, ms: seq<bool>, p: Register)
    requires 0 < |r| == |s| == |p| && p[0]
    requires Run(|r|, r, ms, p) == Run(|s|, s, ms, p)
    ensures r == s
    decreases |ms|
  {
    if |ms| > 0 {
      var init := ms[..|ms| - 1];
      StepInjective(Run(|r|, r, init, p), Run(|s|, s, init, p), ms[|ms| - 1], p);
      RunInjective(r, s, init, p);
    }
  }

  /** The bits of d as the leading bits of an otherwise empty register. */
  function Placed(d: seq<bool>, n: nat): (r: Register)
    requires |d| <= n
    ensures |r| == n
  {
    Zeros(n - |d|) + Reverse(d)
  }

  lemma PlacedFacts(d: seq<bool>, n: nat)
    requires |d| <= n
    ensures Top(Placed(d, n), |d|) == d
    ensures Shl(Placed(d, n), |d|) == Zeros(n)
    ensures Placed(d, n) == Zeros(n) ==> d == Zeros(|d|)
  {
    assert forall i :: 0 <= i < |d| ==> d[i] == Placed(d, n)[n - 1 - i];
  }

  /** A string of at most n bits, not all zero, leaves a mark on the empty register. */
  lemma {:induction false} ShortRunNonzero(d: seq<bool>, p: Register)
    requires 0 < |p| && p[0] && |d| <= |p|
    requires Run(|p|, Zeros(|p|), d, p) == Zeros(|p|)
    ensures d == Zeros(|d|)
  {
    hide *;
    var n, k, z := |p|, |d|, Zeros(|p|);
    var placed := Placed(d, n);
    PlacedFacts(d, n);
    RunFold(placed, Zeros(k), p);
    XorZeros(d);
    XorZeros(z);
    RunZeros(n, k, p);
    RunInjective(placed, z, Zeros(k), p);
  }

  /** Two different strings of at most n bits drive any remainder apart. */
  lemma {:induction false} ShortRunsDiffer(r: Register, v: seq<bool>, w: seq<bool>, p: Register)
    requires 0 < |r| == |p| && p[0]
    requires |v| == |w| <= |r| && v != w
    ensures Run(|r|, r, v, p) != Run(|r|, r, w, p)
  {
    hide *;
    if Run(|r|, r, v, p) == Run(|r|, r, w, p) {
      RunLinear(|r|, r, r, v, w, p);
      XorZeros(r);
      XorZeros(Run(|r|, r, v, p));
      ShortRunNonzero(Xor(v, w), p);
      XorCancels(v, w);
      XorZeros(v);
    }
  }

  lemma RunTrue(p: Register)
    requires 0 < |p|
    ensures Run(|p|, Zeros(|p|), [true], p) == p
  {
    assert [true][..0] == [];
    assert Step(|p|, Zeros(|p|), true, p) == p;
  }

  lemma ShiftOut(p: Register)
    requires 0 < |p| && !p[0]
    ensures Shl(p, |p| - 1) == Zeros(|p|)
  {
  }

  /** With an even divisor the divisor over x is a string of n bits that leaves no trace. */
  lemma {:induction false} EvenDivisorSilent(p: Register)
    requires 0 < |p| && !p[0]
    ensures var n := |p|;
            Run(n, Zeros(n), [true] + Top(p, n - 1), p) == Run(n, Zeros(n), Zeros(n), p)
  {
    hide *;
    var n := |p|;
    RunConcat(n, Zeros(n), [true], Top(p, n - 1), p);
    RunTrue(p);
    RunCancels(p, n - 1, p);
    ShiftOut(p);
    RunZeros(n, n, p);
  }
}
