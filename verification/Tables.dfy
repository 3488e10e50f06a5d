/** The table of partial products: the composite effect of each k-bit dividend word. */
module Tables {
  import opened Registers
  import opened Division
  import opened Polynomials
  import opened Reflection
  import opened Dividers

  /** The table element for the word e. */
  function Entry(n: nat, p: Register, reflect: bool, e: seq<bool>): (r: Register)
    requires 0 < n <= |p|
    ensures |r| == |p|
  {
    if reflect then Reflect(Run(n, Zeros(|p|), e, p), n)
    else Run(n, Zeros(|p|), Reverse(e), p)
  }

  ghost predicate IsTable(t: seq<Register>, k: nat, n: nat, p: Register, reflect: bool)
    requires 0 < n <= |p|
  {
    && |t| == Pow2(k)
    && forall i :: 0 <= i < |t| ==> t[i] == Entry(n, p, reflect, FromNat(i, k))
  }

  /** The place of the element that is computed from the given dividend. */
  function Place(dividend: nat, k: nat, reflect: bool): nat {
    if reflect then Val(Reverse(FromNat(dividend, k))) else dividend
  }

  lemma PlaceFacts(dividend: nat, k: nat, reflect: bool)
    requires dividend < Pow2(k)
    ensures Place(dividend, k, reflect) < Pow2(k)
    ensures Place(Place(dividend, k, reflect), k, reflect) == dividend
    ensures FromNat(Place(dividend, k, reflect), k)
         == if reflect then Reverse(FromNat(dividend, k)) else FromNat(dividend, k)
  {
    if reflect {
      var e := Reverse(FromNat(dividend, k));
      ValBound(e);
      FromNatOfVal(e);
      ReverseTwice(FromNat(dividend, k));
      ValOfFromNat(dividend, k);
    }
  }

  /** Reflecting the low k bits of a dividend that is held in a (k+1)-bit variable. */
  lemma PlaceByReflection(dividend: nat, k: nat, reflect: bool)
    requires dividend < Pow2(k) && 0 < k
    ensures var word := FromNat(dividend, k + 1);
            && Val(if reflect then Reflect(word, k) else word) == Place(dividend, k, reflect)
            && WordStream(word, k, false) == Reverse(FromNat(dividend, k))
  {
    var word, e := FromNat(dividend, k + 1), FromNat(dividend, k);
    FromNatWider(dividend, k);
    assert word[..k] == e && word[k..] == [false];
    if reflect {
      ValAppendFalse(Reverse(e));
    } else {
      ValAppendFalse(e);
      ValOfFromNat(dividend, k);
    }
  }

  lemma {:induction false} EntryAtPlace(n: nat, p: Register, k: nat, reflect: bool, dividend: nat)
    requires 0 < n <= |p| && dividend < Pow2(k)
    ensures var r := Run(n, Zeros(|p|), Reverse(FromNat(dividend, k)), p);
            && Entry(n, p, reflect, FromNat(Place(dividend, k, reflect), k))
               == if reflect then Reflect(r, n) else r
  {
    PlaceFacts(dividend, k, reflect);
  }

  method MakePartialXorProductsTable(subOrder: nat, registerLength: nat, truncatedDivisor: Register, reflect: bool)
    returns (result: array<Register>)
    requires 0 < subOrder <= registerLength <= |truncatedDivisor|
    ensures fresh(result)
    ensures IsTable(result[..], subOrder, registerLength, truncatedDivisor, reflect)
  {
    hide *;
    var k, n, p := subOrder, registerLength, truncatedDivisor;
    result := new Register[Pow2(k)];
    var dividend := 0;
    while dividend < result.Length
      invariant 0 <= dividend <= result.Length == Pow2(k)
      invariant forall i :: 0 <= i < result.Length && Place(i, k, reflect) < dividend ==>
        result[i] == Entry(n, p, reflect, FromNat(i, k))
    {
      var word := FromNat(dividend, k + 1);
      var remainder := CrcModuloWordUpdate(n, Zeros(|p|), word, p, k, false);
      var index := ReflectOptionally(word, reflect, k);
      var element := ReflectOptionally(remainder, reflect, n);
      PlaceByReflection(dividend, k, reflect);
      PlaceFacts(dividend, k, reflect);
      EntryAtPlace(n, p, k, reflect, dividend);
      result[Val(index)] := element;
      forall i | 0 <= i < result.Length && Place(i, k, reflect) < dividend + 1
        ensures result[i] == Entry(n, p, reflect, FromNat(i, k))
      {
        PlaceFacts(i, k, reflect);
      }
      dividend := dividend + 1;
    }
    forall i | 0 <= i < result.Length
      ensures result[i] == Entry(n, p, reflect, FromNat(i, k))
    {
      PlaceFacts(i, k, reflect);
    }
    TableFromEntries(result[..], k, n, p, reflect);
  }

  lemma TableFromEntries(t: seq<Register>, k: nat, n: nat, p: Register, reflect: bool)
    requires 0 < n <= |p|
    requires |t| == Pow2(k) && forall i :: 0 <= i < |t| ==> t[i] == Entry(n, p, reflect, FromNat(i, k))
    ensures IsTable(t, k, n, p, reflect)
  {
  }

  lemma TableLookup(t: seq<Register>, n: nat, p: Register, reflect: bool, e: Byte)
    requires 0 < n <= |p| && IsTable(t, 8, n, p, reflect)
    ensures Val(e) < |t| && t[Val(e)] == Entry(n, p, reflect, e)
  {
    BytesAreIndices(e);
    ValBound(e);
  }

  // ----- What the elements mean

  /** Element d of a direct table is d * x^n modulo the divisor. */
  lemma EntryIsRemainder(n: nat, p: Register, d: seq<bool>, s: Register)
    requires 0 < n <= |p|
    ensures IsRemainder(Dividend(Zeros(n), Reverse(d)), p[..n], s)
       <==> s == Entry(n, p, false, d)[..n]
  {
    RunLow(n, Zeros(|p|), Reverse(d), p);
    assert Zeros(|p|)[..n] == Zeros(n);
    RunIsRemainder(Zeros(n), Reverse(d), p[..n], s);
  }

  /**
    The augmented divider, fed the word and then n zero bits, would fill the table
    with the same elements, carry bits included.
   */
  lemma {:induction false} EntryByAugmentedDivider(n: nat, p: Register, d: seq<bool>)
    requires 0 < n <= |p|
    ensures AugRun(n, Zeros(|p|), Reverse(d) + Zeros(n), p) == Entry(n, p, false, d)
  {
    AugmentedRun(n, Zeros(|p|), Reverse(d), p);
    RunZeros(n, n, p);
    RunsAgreeOnZeros(n, Zeros(|p|), n, p);
  }

  /** A reflected table is the direct table with places and elements reflected. */
  lemma TablesMirror(direct: seq<Register>, mirrored: seq<Register>, n: nat, p: Register, d: Byte)
    requires 0 < n <= |p|
    requires IsTable(direct, 8, n, p, false) && IsTable(mirrored, 8, n, p, true)
    ensures Val(Reverse(d)) < |mirrored| && Val(d) < |direct|
    ensures mirrored[Val(Reverse(d))] == Reflect(direct[Val(d)], n)
  {
    TableLookup(direct, n, p, false, d);
    TableLookup(mirrored, n, p, true, Reverse(d));
  }

  lemma EntryLinear(n: nat, p: Register, reflect: bool, d: seq<bool>, e: seq<bool>)
    requires 0 < n <= |p| && |d| == |e|
    ensures Entry(n, p, reflect, Xor(d, e)) == Xor(Entry(n, p, reflect, d), Entry(n, p, reflect, e))
  {
    var z := Zeros(|p|);
    XorZeros(z);
    if reflect {
      RunLinear(n, z, z, d, e, p);
      ReflectXor(Run(n, z, d, p), Run(n, z, e, p), n);
    } else {
      ReverseXor(d, e);
      RunLinear(n, z, z, Reverse(d), Reverse(e), p);
    }
  }
}
