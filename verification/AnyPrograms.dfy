/**
  Programs over any objects: what a sequence of constructions, assignments, swaps,
  writes and destructions means for named optional values, and that running it on
  real objects with shared memory means the same.
 */
module AnyPrograms {
  import opened AnyOwnership

  datatype Command =
    | Construct(x: nat)
    | ConstructFrom(x: nat, v: Value)
    | CopyConstruct(x: nat, y: nat)
    | MoveConstruct(x: nat, y: nat)
    | Destruct(x: nat)
    | SwapWith(x: nat, y: nat)
    | CopyAssign(x: nat, y: nat)
    | MoveAssign(x: nat, y: nat)
    | AssignValue(x: nat, v: Value)
    | Clear(x: nat)
    | Store(x: nat, typ: TypeId, data: int)

  type Environment = map<nat, Slot>

  /** What the language demands: new names are new, used names exist, values have a type. */
  predicate Allowed(names: set<nat>, cmd: Command) {
    match cmd
    case Construct(x) => x !in names
    case ConstructFrom(x, v) => x !in names && v.typ.Named?
    case CopyConstruct(x, y) => x !in names && y in names
    case MoveConstruct(x, y) => x !in names && y in names
    case Destruct(x) => x in names
    case SwapWith(x, y) => x in names && y in names
    case CopyAssign(x, y) => x in names && y in names
    case MoveAssign(x, y) => x in names && y in names
    case AssignValue(x, v) => x in names && v.typ.Named?
    case Clear(x) => x in names
    case Store(x, typ, _) => x in names && typ.Named?
  }

  function After(env: Environment, cmd: Command): (env': Environment)
    requires Allowed(env.Keys, cmd)
  {
    match cmd
    case Construct(x) => env[x := None]
    case ConstructFrom(x, v) => env[x := Some(v)]
    case CopyConstruct(x, y) => env[x := env[y]]
    case MoveConstruct(x, y) => env[x := env[y]][y := None]
    case Destruct(x) => env - {x}
    case SwapWith(x, y) => env[x := env[y]][y := env[x]]
    case CopyAssign(x, y) => env[x := env[y]]
    case MoveAssign(x, y) => env[x := env[y]][y := None]
    case AssignValue(x, v) => env[x := Some(v)]
    case Clear(x) => env[x := None]
    case Store(x, typ, data) =>
      if env[x].Some? && env[x].value.typ == typ then env[x := Some(Value(typ, data))] else env
  }

  predicate AllAllowed(env: Environment, cmds: seq<Command>)
    decreases |cmds|
  {
    |cmds| == 0 || (Allowed(env.Keys, cmds[0]) && AllAllowed(After(env, cmds[0]), cmds[1..]))
  }

  function Eval(env: Environment, cmds: seq<Command>): (env': Environment)
    requires AllAllowed(env, cmds)
    decreases |cmds|
  {
    if |cmds| == 0 then env else Eval(After(env, cmds[0]), cmds[1..])
  }

  // ----- What the commands mean, name by name

  /** Names that a command does not write keep their values; only construction and destruction change the names. */
  lemma OthersKept(env: Environment, cmd: Command, z: nat)
    requires Allowed(env.Keys, cmd) && z != cmd.x
    requires cmd.MoveConstruct? || cmd.MoveAssign? || cmd.SwapWith? ==> z != cmd.y
    ensures z in After(env, cmd) <==> z in env
    ensures z in env ==> After(env, cmd)[z] == env[z]
    ensures cmd.x in After(env, cmd) <==> !cmd.Destruct?
  {
  }

  lemma ConstructMeans(env: Environment, x: nat, v: Value)
    requires x !in env && v.typ.Named?
    ensures Allowed(env.Keys, Construct(x)) && After(env, Construct(x))[x] == None
    ensures Allowed(env.Keys, ConstructFrom(x, v)) && After(env, ConstructFrom(x, v))[x] == Some(v)
  {
  }

  lemma AssignMeans(env: Environment, x: nat, v: Value)
    requires x in env && v.typ.Named?
    ensures Allowed(env.Keys, AssignValue(x, v)) && After(env, AssignValue(x, v))[x] == Some(v)
    ensures Allowed(env.Keys, Clear(x)) && After(env, Clear(x))[x] == None
    ensures Allowed(env.Keys, Destruct(x)) && x !in After(env, Destruct(x))
  {
  }

  /** Copies leave target and source at the old value of the source. */
  lemma CopyMeans(env: Environment, x: nat, y: nat)
    requires y in env
    ensures x !in env ==>
      && Allowed(env.Keys, CopyConstruct(x, y))
      && After(env, CopyConstruct(x, y))[x] == env[y] == After(env, CopyConstruct(x, y))[y]
    ensures x in env ==>
      && Allowed(env.Keys, CopyAssign(x, y))
      && After(env, CopyAssign(x, y))[x] == env[y] == After(env, CopyAssign(x, y))[y]
  {
  }

  /** Moves give the target the old value of the source and empty the source, also when the two are one. */
  lemma MoveMeans(env: Environment, x: nat, y: nat)
    requires y in env
    ensures x !in env ==>
      && Allowed(env.Keys, MoveConstruct(x, y))
      && After(env, MoveConstruct(x, y))[x] == env[y] && After(env, MoveConstruct(x, y))[y] == None
    ensures x in env ==>
      && Allowed(env.Keys, MoveAssign(x, y))
      && (x != y ==> After(env, MoveAssign(x, y))[x] == env[y])
      && After(env, MoveAssign(x, y))[y] == None
  {
  }

  lemma SwapMeans(env: Environment, x: nat, y: nat)
    requires x in env && y in env
    ensures Allowed(env.Keys, SwapWith(x, y))
    ensures After(env, SwapWith(x, y))[x] == env[y] && After(env, SwapWith(x, y))[y] == env[x]
  {
  }

  lemma StoreMeans(env: Environment, x: nat, typ: TypeId, data: int)
    requires x in env && typ.Named?
    ensures Allowed(env.Keys, Store(x, typ, data))
    ensures forall d :: env[x] == Some(Value(typ, d)) ==> After(env, Store(x, typ, data))[x] == Some(Value(typ, data))
    ensures (forall d :: env[x] != Some(Value(typ, d))) ==> After(env, Store(x, typ, data))[x] == env[x]
  {
    if env[x].Some? && env[x].value.typ == typ {
      assert env[x] == Some(Value(typ, env[x].value.data));
    }
  }

  // ----- Sequences of commands

  lemma EvalOne(env: Environment, cmd: Command)
    ensures AllAllowed(env, []) && Eval(env, []) == env
    ensures AllAllowed(env, [cmd]) <==> Allowed(env.Keys, cmd)
    ensures Allowed(env.Keys, cmd) ==> Eval(env, [cmd]) == After(env, cmd)
  {
    if Allowed(env.Keys, cmd) {
      assert [cmd][1..] == [];
    }
  }

  /** Running two sequences in turn is running their concatenation. */
  lemma {:induction false} EvalConcat(env: Environment, a: seq<Command>, b: seq<Command>)
    ensures AllAllowed(env, a + b) <==> AllAllowed(env, a) && AllAllowed(Eval(env, a), b)
    ensures AllAllowed(env, a + b) ==> Eval(env, a + b) == Eval(Eval(env, a), b)
    decreases |a|
  {
    if |a| == 0 {
      assert a + b == b;
    } else {
      assert (a + b)[0] == a[0] && (a + b)[1..] == a[1..] + b;
      if Allowed(env.Keys, a[0]) {
        EvalConcat(After(env, a[0]), a[1..], b);
      }
    }
  }

  lemma EvalTwo(env: Environment, c: Command, d: Command)
    requires Allowed(env.Keys, c) && Allowed(After(env, c).Keys, d)
    ensures AllAllowed(env, [c, d]) && Eval(env, [c, d]) == After(After(env, c), d)
  {
    EvalOne(env, c);
    EvalOne(After(env, c), d);
    EvalConcat(env, [c], [d]);
    assert [c] + [d] == [c, d];
  }

  /** A copy is independent: writing to it afterwards leaves the source alone, and dropping it restores everything. */
  lemma CopyIndependent(env: Environment, x: nat, y: nat, typ: TypeId, data: int)
    requires x !in env && y in env && typ.Named?
    ensures AllAllowed(env, [CopyConstruct(x, y), Store(x, typ, data)])
    ensures var after := Eval(env, [CopyConstruct(x, y), Store(x, typ, data)]);
            y in after && after[y] == env[y]
    ensures AllAllowed(env, [CopyConstruct(x, y), Destruct(x)])
    ensures Eval(env, [CopyConstruct(x, y), Destruct(x)]) == env
  {
    EvalTwo(env, CopyConstruct(x, y), Store(x, typ, data));
    EvalTwo(env, CopyConstruct(x, y), Destruct(x));
  }

  /** Moving away and back, and swapping twice, restore everything. */
  lemma RoundTrips(env: Environment, x: nat, y: nat)
    requires x in env && y in env
    ensures AllAllowed(env, [SwapWith(x, y), SwapWith(x, y)])
    ensures Eval(env, [SwapWith(x, y), SwapWith(x, y)]) == env
    ensures x != y && env[x] == None ==>
      && AllAllowed(env, [MoveAssign(x, y), MoveAssign(y, x)])
      && Eval(env, [MoveAssign(x, y), MoveAssign(y, x)]) == env
  {
    EvalTwo(env, SwapWith(x, y), SwapWith(x, y));
    if x != y && env[x] == None {
      EvalTwo(env, MoveAssign(x, y), MoveAssign(y, x));
    }
  }

  // ----- Names bound to objects

  /** Distinct names for distinct objects, and a name for every object. */
  ghost predicate Binds(vars: map<nat, Any>, anys: set<Any>) {
    && (forall x :: x in vars ==> vars[x] in anys)
    && (forall a :: a in anys ==> exists x :: x in vars && vars[x] == a)
    && (forall x, y :: x in vars && y in vars && x != y ==> vars[x] != vars[y])
  }

  ghost function EnvironmentOf(vars: map<nat, Any>, slots: map<Any, Slot>): (env: Environment)
    requires Binds(vars, slots.Keys)
    ensures env.Keys == vars.Keys
  {
    map x | x in vars :: slots[vars[x]]
  }

  lemma BindNew(vars: map<nat, Any>, slots: map<Any, Slot>, x: nat, a: Any, s: Slot)
    requires Binds(vars, slots.Keys) && x !in vars && a !in slots
    ensures Binds(vars[x := a], slots[a := s].Keys)
    ensures EnvironmentOf(vars[x := a], slots[a := s]) == EnvironmentOf(vars, slots)[x := s]
  {
    var vars' := vars[x := a];
    assert vars'[x] == a && forall z :: z in vars ==> vars'[z] == vars[z];
  }

  lemma Unbind(vars: map<nat, Any>, slots: map<Any, Slot>, x: nat)
    requires Binds(vars, slots.Keys) && x in vars
    ensures Binds(vars - {x}, (slots - {vars[x]}).Keys)
    ensures EnvironmentOf(vars - {x}, slots - {vars[x]}) == EnvironmentOf(vars, slots) - {x}
  {
    var vars' := vars - {x};
    forall a | a in slots && a != vars[x]
      ensures exists z :: z in vars' && vars'[z] == a
    {
      var z :| z in vars && vars[z] == a;
      assert z in vars';
    }
  }

  lemma UpdateBound(vars: map<nat, Any>, slots: map<Any, Slot>, x: nat, s: Slot)
    requires Binds(vars, slots.Keys) && x in vars
    ensures Binds(vars, slots[vars[x] := s].Keys)
    ensures EnvironmentOf(vars, slots[vars[x] := s]) == EnvironmentOf(vars, slots)[x := s]
  {
    assert slots[vars[x] := s].Keys == slots.Keys;
  }

  lemma EnvironmentAt(vars: map<nat, Any>, slots: map<Any, Slot>, x: nat)
    requires Binds(vars, slots.Keys) && x in vars
    ensures vars[x] in slots && EnvironmentOf(vars, slots)[x] == slots[vars[x]]
  {
  }

  class Program {
    const m: Memory
    var vars: map<nat, Any>

    ghost predicate Valid()
      reads this, m, m.anys
    {
      m.Valid() && Binds(vars, m.anys)
    }

    ghost function Env(): (env: Environment)
      requires Valid()
      reads this, m, m.anys, m.live
      ensures env.Keys == vars.Keys
      ensures forall x :: x in vars ==> env[x] == vars[x].View()
    {
      EnvironmentOf(vars, m.Slots())
    }

    constructor ()
      ensures Valid() && Env() == map[] && fresh(m) && m.anys == {} && m.live == {}
    {
      m := new Memory();
      vars := map[];
    }

    method Construct(x: nat)
      requires Valid() && x !in vars
      modifies this, m, m.anys, m.live
      ensures Valid() && Env() == old(Env())[x := None]
      ensures fresh(m.anys - old(m.anys)) && fresh(m.live - old(m.live))
    {
      hide Memory.Valid, Memory.Slots, Any.View, Binds, EnvironmentOf;
      ghost var slots := m.Slots();
      var a := new Any.Empty(m);
      BindNew(vars, slots, x, a, None);
      vars := vars[x := a];
    }

    method ConstructFrom(x: nat, v: Value)
      requires Valid() && x !in vars && v.typ.Named?
      modifies this, m, m.anys, m.live
      ensures Valid() && Env() == old(Env())[x := Some(v)]
      ensures fresh(m.anys - old(m.anys)) && fresh(m.live - old(m.live))
    {
      hide Memory.Valid, Memory.Slots, Any.View, Binds, EnvironmentOf;
      ghost var slots := m.Slots();
      var a := new Any.FromValue(m, v);
      BindNew(vars, slots, x, a, Some(v));
      vars := vars[x := a];
    }

    method CopyConstruct(x: nat, y: nat)
      requires Valid() && x !in vars && y in vars
      modifies this, m, m.anys, m.live
      ensures Valid() && Env() == old(Env())[x := old(Env())[y]]
      ensures fresh(m.anys - old(m.anys)) && fresh(m.live - old(m.live))
    {
      hide Memory.Valid, Memory.Slots, Any.View, Binds, EnvironmentOf;
      ghost var slots := m.Slots();
      EnvironmentAt(vars, slots, y);
      var a := new Any.Copy(m, vars[y]);
      BindNew(vars, slots, x, a, slots[vars[y]]);
      vars := vars[x := a];
    }

    method MoveConstruct(x: nat, y: nat)
      requires Valid() && x !in vars && y in vars
      modifies this, m, m.anys, m.live
      ensures Valid() && Env() == old(Env())[x := old(Env())[y]][y := None]
      ensures fresh(m.anys - old(m.anys)) && fresh(m.live - old(m.live))
    {
      hide Memory.Valid, Memory.Slots, Any.View, Binds, EnvironmentOf;
      ghost var slots := m.Slots();
      EnvironmentAt(vars, slots, y);
      var a := new Any.Move(m, vars[y]);
      BindNew(vars, slots, x, a, slots[vars[y]]);
      vars := vars[x := a];
      UpdateBound(vars, slots[a := slots[vars[y]]], y, None);
    }

    method Destruct(x: nat)
      requires Valid() && x in vars
      modifies this, m, m.anys, m.live
      ensures Valid() && Env() == old(Env()) - {x}
      ensures fresh(m.anys - old(m.anys)) && fresh(m.live - old(m.live))
    {
      hide Memory.Valid, Memory.Slots, Any.View, Binds, EnvironmentOf;
      ghost var slots := m.Slots();
      EnvironmentAt(vars, slots, x);
      vars[x].Destroy(m);
      Unbind(vars, slots, x);
      vars := vars - {x};
    }

    method SwapWith(x: nat, y: nat)
      requires Valid() && x in vars && y in vars
      modifies this, m, m.anys, m.live
      ensures Valid() && Env() == old(Env())[x := old(Env())[y]][y := old(Env())[x]]
      ensures fresh(m.anys - old(m.anys)) && fresh(m.live - old(m.live))
    {
      hide Memory.Valid, Memory.Slots, Any.View, Binds, EnvironmentOf;
      ghost var slots := m.Slots();
      EnvironmentAt(vars, slots, x);
      EnvironmentAt(vars, slots, y);
      vars[x].Swap(m, vars[y]);
      UpdateBound(vars, slots, x, slots[vars[y]]);
      UpdateBound(vars, slots[vars[x] := slots[vars[y]]], y, slots[vars[x]]);
    }

    method CopyAssign(x: nat, y: nat)
      requires Valid() && x in vars && y in vars
      modifies this, m, m.anys, m.live
      ensures Valid() && Env() == old(Env())[x := old(Env())[y]]
      ensures fresh(m.anys - old(m.anys)) && fresh(m.live - old(m.live))
    {
      hide Memory.Valid, Memory.Slots, Any.View, Binds, EnvironmentOf;
      ghost var slots := m.Slots();
      EnvironmentAt(vars, slots, x);
      EnvironmentAt(vars, slots, y);
      vars[x].CopyAssign(m, vars[y]);
      UpdateBound(vars, slots, x, slots[vars[y]]);
    }

    method MoveAssign(x: nat, y: nat)
      requires Valid() && x in vars && y in vars
      modifies this, m, m.anys, m.live
      ensures Valid() && Env() == old(Env())[x := old(Env())[y]][y := None]
      ensures fresh(m.anys - old(m.anys)) && fresh(m.live - old(m.live))
    {
      hide Memory.Valid, Memory.Slots, Any.View, Binds, EnvironmentOf;
      ghost var slots := m.Slots();
      EnvironmentAt(vars, slots, x);
      EnvironmentAt(vars, slots, y);
      vars[x].MoveAssign(m, vars[y]);
      UpdateBound(vars, slots, x, slots[vars[y]]);
      UpdateBound(vars, slots[vars[x] := slots[vars[y]]], y, None);
    }

    method AssignValue(x: nat, v: Value)
      requires Valid() && x in vars && v.typ.Named?
      modifies this, m, m.anys, m.live
      ensures Valid() && Env() == old(Env())[x := Some(v)]
      ensures fresh(m.anys - old(m.anys)) && fresh(m.live - old(m.live))
    {
      hide Memory.Valid, Memory.Slots, Any.View, Binds, EnvironmentOf;
      ghost var slots := m.Slots();
      EnvironmentAt(vars, slots, x);
      vars[x].AssignValue(m, v);
      UpdateBound(vars, slots, x, Some(v));
    }

    method Clear(x: nat)
      requires Valid() && x in vars
      modifies this, m, m.anys, m.live
      ensures Valid() && Env() == old(Env())[x := None]
      ensures fresh(m.anys - old(m.anys)) && fresh(m.live - old(m.live))
    {
      hide Memory.Valid, Memory.Slots, Any.View, Binds, EnvironmentOf;
      ghost var slots := m.Slots();
      EnvironmentAt(vars, slots, x);
      vars[x].Clear(m);
      UpdateBound(vars, slots, x, None);
    }

    method Store(x: nat, typ: TypeId, data: int)
      requires Valid() && x in vars && typ.Named?
      modifies this, m, m.anys, m.live
      ensures Valid()
      ensures Env() ==
        if old(Env())[x].Some? && old(Env())[x].value.typ == typ
        then old(Env())[x := Some(Value(typ, data))]
        else old(Env())
      ensures fresh(m.anys - old(m.anys)) && fresh(m.live - old(m.live))
    {
      hide Memory.Valid, Memory.Slots, Any.View, Binds, EnvironmentOf;
      ghost var slots := m.Slots();
      EnvironmentAt(vars, slots, x);
      OwnedIsLive(m, vars[x]);
      var stored := StoreThroughCast(m, vars[x], typ, data);
      UpdateBound(vars, slots, x, Some(Value(typ, data)));
    }

    method Execute(cmd: Command)
      requires Valid() && Allowed(vars.Keys, cmd)
      modifies this, m, m.anys, m.live
      ensures Valid() && Env() == After(old(Env()), cmd)
      ensures cmd.Construct? || cmd.Clear? ==> Env() == old(Env())[cmd.x := None]
      ensures cmd.ConstructFrom? || cmd.AssignValue? ==> Env() == old(Env())[cmd.x := Some(cmd.v)]
      ensures cmd.CopyConstruct? || cmd.CopyAssign? ==> Env() == old(Env())[cmd.x := old(Env())[cmd.y]]
      ensures cmd.MoveConstruct? || cmd.MoveAssign? ==>
        Env() == old(Env())[cmd.x := old(Env())[cmd.y]][cmd.y := None]
      ensures cmd.SwapWith? ==> Env() == old(Env())[cmd.x := old(Env())[cmd.y]][cmd.y := old(Env())[cmd.x]]
      ensures cmd.Destruct? ==> Env() == old(Env()) - {cmd.x}
      ensures cmd.Store? ==>
        var s := old(Env())[cmd.x];
        Env() == if s.Some? && s.value.typ == cmd.typ
                 then old(Env())[cmd.x := Some(Value(cmd.typ, cmd.data))]
                 else old(Env())
      ensures fresh(m.anys - old(m.anys)) && fresh(m.live - old(m.live))
    {
      hide Valid, Env, Memory.Valid, Memory.Slots;
      match cmd
      case Construct(x) => Construct(x);
      case ConstructFrom(x, v) => ConstructFrom(x, v);
      case CopyConstruct(x, y) => CopyConstruct(x, y);
      case MoveConstruct(x, y) => MoveConstruct(x, y);
      case Destruct(x) => Destruct(x);
      case SwapWith(x, y) => SwapWith(x, y);
      case CopyAssign(x, y) => CopyAssign(x, y);
      case MoveAssign(x, y) => MoveAssign(x, y);
      case AssignValue(x, v) => AssignValue(x, v);
      case Clear(x) => Clear(x);
      case Store(x, typ, data) => Store(x, typ, data);
    }

    method Run(cmds: seq<Command>)
      requires Valid() && AllAllowed(Env(), cmds)
      modifies this, m, m.anys, m.live
      ensures Valid() && Env() == Eval(old(Env()), cmds)
      decreases |cmds|
    {
      if |cmds| > 0 {
        Execute(cmds[0]);
        Run(cmds[1..]);
      }
    }
  }
}
