/** Whole runs of a computer: any order of feeding pieces of input and of resetting. */
module Sessions {
  import opened Registers
  import opened Division
  import opened Reflection
  import opened Drivers
  import opened Formula
  import opened Agreement

  /** process_byte, operator(), process_block and process_bytes feed; reset restarts. */
  datatype Operation = Feed(data: seq<Byte>) | Reset(remainder: Register)

  ghost predicate Fitting(c: Params, ops: seq<Operation>) {
    forall i :: 0 <= i < |ops| && ops[i].Reset? ==> |ops[i].remainder| == |c.poly|
  }

  function BasicAfter(c: Params, r: Register, ops: seq<Operation>): (rem: Register)
    requires c.Valid() && |r| == |c.poly| && Fitting(c, ops)
    ensures |rem| == |c.poly|
    decreases |ops|
  {
    if |ops| == 0 then r
    else
      var before, op := BasicAfter(c, r, ops[..|ops| - 1]), ops[|ops| - 1];
      match op
      case Feed(data) => BasicFeed(c, before, data)
      case Reset(s) => s
  }

  function OptimalAfter(c: Params, r: Register, ops: seq<Operation>): (rem: Register)
    requires c.Valid() && |r| == |c.poly| && Fitting(c, ops)
    ensures |rem| == |c.poly|
    decreases |ops|
  {
    if |ops| == 0 then OptimalStart(c, r)
    else
      var before, op := OptimalAfter(c, r, ops[..|ops| - 1]), ops[|ops| - 1];
      match op
      case Feed(data) => OptimalFeed(c, before, data)
      case Reset(s) => OptimalStart(c, s)
  }

  /** The remainder of the last reset, or the one of construction. */
  function Origin(r: Register, ops: seq<Operation>): (s: Register)
    decreases |ops|
  {
    if |ops| == 0 then r
    else if ops[|ops| - 1].Reset? then ops[|ops| - 1].remainder
    else Origin(r, ops[..|ops| - 1])
  }

  /** All input since the last reset, however it was cut. */
  function Input(ops: seq<Operation>): (data: seq<Byte>)
    decreases |ops|
  {
    if |ops| == 0 || ops[|ops| - 1].Reset? then []
    else Input(ops[..|ops| - 1]) + ops[|ops| - 1].data
  }

  /** The runs one operation at a time. */
  lemma OneMoreOperation(c: Params, r: Register, ops: seq<Operation>, data: seq<Byte>, s: Register)
    requires c.Valid() && |r| == |s| == |c.poly| && Fitting(c, ops)
    ensures Fitting(c, ops + [Feed(data)]) && Fitting(c, ops + [Reset(s)])
    ensures BasicAfter(c, r, ops + [Feed(data)]) == BasicFeed(c, BasicAfter(c, r, ops), data)
    ensures OptimalAfter(c, r, ops + [Feed(data)]) == OptimalFeed(c, OptimalAfter(c, r, ops), data)
    ensures Origin(r, ops + [Feed(data)]) == Origin(r, ops) && Input(ops + [Feed(data)]) == Input(ops) + data
    ensures BasicAfter(c, r, ops + [Reset(s)]) == s && OptimalAfter(c, r, ops + [Reset(s)]) == OptimalStart(c, s)
    ensures Origin(r, ops + [Reset(s)]) == s && Input(ops + [Reset(s)]) == []
    ensures BasicAfter(c, r, []) == r && OptimalAfter(c, r, []) == OptimalStart(c, r)
    ensures Origin(r, []) == r && Input([]) == []
  {
    hide BasicFeed, OptimalFeed, OptimalStart;
    assert (ops + [Feed(data)])[..|ops|] == ops && (ops + [Reset(s)])[..|ops|] == ops;
  }

  /** A fresh register keeps its bits when nothing is fed. */
  lemma FeedNothing(c: Params, r: Register)
    requires c.Valid() && |r| == |c.poly|
    ensures BasicFeed(c, r, []) == r
    ensures OptimalFeed(c, OptimalStart(c, r), []) == OptimalStart(c, r)
  {
    hide ReflectQ;
    assert BasicFeed(c, r, []) == Run(c.order, r, [], c.poly) == r;
    if c.order < 8 {
      var s := OptimalStart(c, r);
      if c.reflectIn {
        ReflectQLow(c.order, r, true);
        ReflectQLow(c.order, s, true);
        ReflectQLow(c.order, ReflectQ(c.order, s, true), true);
        ReverseTwice(r[..c.order]);
        assert s[..c.order] == Reverse(r[..c.order]);
      } else {
        UnreflectedQ(c.order, r);
        UnreflectedQ(c.order, s);
      }
    }
  }

  /** Neither how the input was cut nor what came before the last reset leaves a trace in the register. */
  lemma {:induction false} OnlyInputCounts(c: Params, r: Register, ops: seq<Operation>)
    requires c.Valid() && |r| == |c.poly| && Fitting(c, ops)
    ensures |Origin(r, ops)| == |c.poly|
    ensures BasicAfter(c, r, ops) == BasicFeed(c, Origin(r, ops), Input(ops))
    ensures OptimalAfter(c, r, ops) == OptimalFeed(c, OptimalStart(c, Origin(r, ops)), Input(ops))
    decreases |ops|
  {
    hide BasicFeed, OptimalFeed, OptimalStart;
    if |ops| == 0 || ops[|ops| - 1].Reset? {
      FeedNothing(c, Origin(r, ops));
    } else {
      var init, data := ops[..|ops| - 1], ops[|ops| - 1].data;
      OnlyInputCounts(c, r, init);
      BasicFeedConcat(c, Origin(r, init), Input(init), data);
      OptimalFeedConcat(c, OptimalStart(c, Origin(r, init)), Input(init), data);
    }
  }

  /** With harmless carries the two computers are indistinguishable at every point of every run. */
  lemma Indistinguishable(c: Params, r: Register, ops: seq<Operation>)
    requires c.Valid() && |r| == |c.poly| && Fitting(c, ops)
    requires CarriesHarmless(c, Origin(r, ops))
    ensures OptimalChecksum(c, OptimalAfter(c, r, ops)) == BasicChecksum(c, BasicAfter(c, r, ops))
    ensures OptimalInterim(c, OptimalAfter(c, r, ops)) == BasicInterim(c, BasicAfter(c, r, ops))
  {
    hide OptimalChecksum, BasicChecksum, OptimalInterim, BasicInterim, OptimalAfter, BasicAfter;
    hide OptimalFeed, BasicFeed, OptimalStart, CarriesHarmless;
    OnlyInputCounts(c, r, ops);
    var origin := Origin(r, ops);
    AgreementIffCarriesHarmless(c, origin);
    assert AgreeOn(c, origin, Input(ops));
    InterimsAgree(c, origin, Input(ops));
  }
}
