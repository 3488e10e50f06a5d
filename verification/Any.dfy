/**
  The ownership discipline of boost::any: clone on copy, steal on move,
  copy-and-swap assignment, delete in the destructor.

  `Memory` keeps the ghost account that C++ leaves to the programmer: which holders
  have been allocated and not yet deleted, and which any objects are alive.
  Temporaries are constructed and destroyed like the other objects.
 */
module AnyOwnership {

  datatype Option<+T> = None | Some(value: T)

  /** typeid(void) is the type of an empty any; no holder has it. */
  datatype TypeId = Void | Named(name: nat)

  datatype Value = Value(typ: TypeId, data: int)

  type Slot = Option<Value>

  class Holder {
    const typ: TypeId
    var held: int

    constructor (v: Value)
      ensures typ == v.typ && held == v.data
    {
      typ, held := v.typ, v.data;
    }
  }

  class Memory {
    ghost var live: set<Holder>
    ghost var anys: set<Any>

    /** Every non-empty any owns a live holder of its own, and every live holder is owned. */
    ghost predicate Valid()
      reads this, anys
    {
      && (forall a :: a in anys && a.content != null ==> a.content in live && a.content.typ.Named?)
      && (forall a, b :: a in anys && b in anys && a != b && a.content != null ==> a.content != b.content)
      && (forall h :: h in live ==> exists a :: a in anys && a.content == h)
    }

    /** Value semantics: each any object is an optional (type, value). */
    ghost function Slots(): (s: map<Any, Slot>)
      requires Valid()
      reads this, anys, live
      ensures s.Keys == anys
    {
      map a | a in anys :: a.View()
    }

    constructor ()
      ensures Valid() && anys == {} && live == {}
    {
      live, anys := {}, {};
    }

    method New(v: Value) returns (h: Holder)
      modifies this`live
      ensures fresh(h) && h.typ == v.typ && h.held == v.data
      ensures live == old(live) + {h}
    {
      h := new Holder(v);
      live := live + {h};
    }

    /** holder::clone */
    method Clone(h: Holder) returns (c: Holder)
      requires h in live
      modifies this`live
      ensures fresh(c) && c.typ == h.typ && c.held == h.held
      ensures live == old(live) + {c}
    {
      c := New(Value(h.typ, h.held));
    }

    /** `delete`: null is ignored, and nothing is deleted twice. */
    ghost method Delete(h: Holder?)
      requires h == null || h in live
      modifies this`live
      ensures live == old(live) - (if h == null then {} else {h})
    {
      if h != null {
        live := live - {h};
      }
    }
  }

  lemma OwnedIsLive(m: Memory, a: Any)
    requires m.Valid() && a in m.anys
    ensures a.content == null || (a.content in m.live && a.content.typ.Named?)
    ensures m.Slots()[a] == a.View()
  {
  }

  /** A new object that is empty or owns a new holder joins the others. */
  twostate lemma Joined(m: Memory, new a: Any)
    requires old(m.Valid()) && a !in old(m.anys) && m.anys == old(m.anys) + {a}
    requires forall b :: b in old(m.anys) ==> b.content == old(b.content)
    requires forall h :: h in old(m.live) ==> h.held == old(h.held)
    requires a.content != null ==> fresh(a.content) && a.content.typ.Named?
    requires m.live == old(m.live) + (if a.content == null then {} else {a.content})
    ensures m.Valid() && m.Slots() == old(m.Slots())[a := a.View()]
  {
    forall h | h in m.live
      ensures exists b :: b in m.anys && b.content == h
    {
      if h in old(m.live) {
        var b :| b in old(m.anys) && old(b.content) == h;
        assert b in m.anys;
      } else {
        assert a.content == h;
      }
    }
    assert m.Valid();
    forall b | b in old(m.anys)
      ensures b.View() == old(b.View())
    {
    }
  }

  /** Two swaps and a temporary make a move. */
  lemma MoveBySwaps(s: map<Any, Slot>, lhs: Any, rhs: Any, tmp: Any)
    requires lhs in s && rhs in s && tmp !in s
    ensures var swapped := s[rhs := s[lhs]][lhs := s[rhs]];
            var extended := swapped[tmp := None];
            extended[tmp := extended[rhs]][rhs := extended[tmp]] - {tmp} == s[lhs := s[rhs]][rhs := None]
  {
  }

  class Any {
    var content: Holder?

    ghost function View(): (s: Slot)
      reads this, content
    {
      if content == null then None else Some(Value(content.typ, content.held))
    }

    constructor Empty(m: Memory)
      requires m.Valid()
      modifies m`anys
      ensures m.Valid() && m.anys == old(m.anys) + {this} && m.live == old(m.live)
      ensures m.Slots() == old(m.Slots())[this := None]
    {
      hide Memory.Valid, Memory.Slots;
      content := null;
      new;
      m.anys := m.anys + {this};
      Joined(m, this);
    }

    constructor FromValue(m: Memory, v: Value)
      requires m.Valid() && v.typ.Named?
      modifies m
      ensures m.Valid() && m.anys == old(m.anys) + {this} && fresh(m.live - old(m.live))
      ensures m.Slots() == old(m.Slots())[this := Some(v)]
    {
      hide Memory.Valid, Memory.Slots;
      var h := m.New(v);
      content := h;
      new;
      m.anys := m.anys + {this};
      Joined(m, this);
    }

    constructor Copy(m: Memory, other: Any)
      requires m.Valid() && other in m.anys
      modifies m
      ensures m.Valid() && m.anys == old(m.anys) + {this} && fresh(m.live - old(m.live))
      ensures m.Slots() == old(m.Slots())[this := old(m.Slots())[other]]
    {
      hide Memory.Valid, Memory.Slots;
      OwnedIsLive(m, other);
      var c: Holder? := null;
      if other.content != null {
        c := m.Clone(other.content);
      }
      content := c;
      new;
      m.anys := m.anys + {this};
      Joined(m, this);
    }

    constructor Move(m: Memory, other: Any)
      requires m.Valid() && other in m.anys
      modifies m`anys, other
      ensures m.Valid() && m.anys == old(m.anys) + {this} && m.live == old(m.live)
      ensures m.Slots() == old(m.Slots())[this := old(m.Slots())[other]][other := None]
    {
      content := other.content;
      new;
      other.content := null;
      m.anys := m.anys + {this};
      assert forall b :: b in old(m.anys) && b != other ==> b.content == old(b.content);
      assert m.Valid() by {
        forall h | h in m.live
          ensures exists b :: b in m.anys && b.content == h
        {
          var b :| b in old(m.anys) && old(b.content) == h;
          assert (if b == other then this else b).content == h;
        }
      }
    }

    /** ~any */
    method Destroy(m: Memory)
      requires m.Valid() && this in m.anys
      modifies m
      ensures m.Valid() && m.anys == old(m.anys) - {this} && m.live <= old(m.live)
      ensures m.Slots() == old(m.Slots()) - {this}
    {
      m.Delete(content);
      m.anys := m.anys - {this};
    }

    method Swap(m: Memory, rhs: Any)
      requires m.Valid() && this in m.anys && rhs in m.anys
      modifies this, rhs
      ensures m.Valid()
      ensures m.Slots() == old(m.Slots())[this := old(m.Slots())[rhs]][rhs := old(m.Slots())[this]]
      ensures content == old(rhs.content) && rhs.content == old(content)
    {
      var tmp := content;
      content := rhs.content;
      rhs.content := tmp;
      assert forall a :: a in m.anys && a != this && a != rhs ==> a.content == old(a.content);
      assert m.Valid() by {
        forall h | h in m.live
          ensures exists a :: a in m.anys && a.content == h
        {
          var a :| a in m.anys && old(a.content) == h;
          assert (if a == this then rhs else if a == rhs then this else a).content == h;
        }
      }
    }

    /** any(rhs).swap(*this) */
    method CopyAssign(m: Memory, rhs: Any)
      requires m.Valid() && this in m.anys && rhs in m.anys
      modifies m, this
      ensures m.Valid() && m.anys == old(m.anys) && fresh(m.live - old(m.live))
      ensures m.Slots() == old(m.Slots())[this := old(m.Slots())[rhs]]
    {
      hide *;
      var tmp := new Any.Copy(m, rhs);
      tmp.Swap(m, this);
      tmp.Destroy(m);
    }

    /** rhs.swap(*this); any().swap(rhs): a self-move empties the object. */
    method MoveAssign(m: Memory, rhs: Any)
      requires m.Valid() && this in m.anys && rhs in m.anys
      modifies m, this, rhs
      ensures m.Valid() && m.anys == old(m.anys) && m.live <= old(m.live)
      ensures m.Slots() == old(m.Slots())[this := old(m.Slots())[rhs]][rhs := None]
    {
      hide *;
      ghost var s := m.Slots();
      rhs.Swap(m, this);
      var tmp := new Any.Empty(m);
      tmp.Swap(m, rhs);
      tmp.Destroy(m);
      MoveBySwaps(s, this, rhs, tmp);
    }

    method AssignValue(m: Memory, v: Value)
      requires m.Valid() && this in m.anys && v.typ.Named?
      modifies m, this
      ensures m.Valid() && m.anys == old(m.anys) && fresh(m.live - old(m.live))
      ensures m.Slots() == old(m.Slots())[this := Some(v)]
    {
      hide *;
      var tmp := new Any.FromValue(m, v);
      tmp.Swap(m, this);
      tmp.Destroy(m);
    }

    method Clear(m: Memory)
      requires m.Valid() && this in m.anys
      modifies m, this
      ensures m.Valid() && m.anys == old(m.anys) && m.live <= old(m.live)
      ensures m.Slots() == old(m.Slots())[this := None]
    {
      hide *;
      var tmp := new Any.Empty(m);
      tmp.Swap(m, this);
      tmp.Destroy(m);
    }

    method IsEmpty() returns (empty: bool)
      ensures empty <==> View() == None
    {
      empty := content == null;
    }

    /** Asks the holder, which has to be live. */
    method Type(m: Memory) returns (typ: TypeId)
      requires m.Valid() && this in m.anys
      ensures typ == match View() case None => Void case Some(v) => v.typ
    {
      typ := if content != null then content.typ else Void;
    }
  }

  // ----- any_cast

  datatype CastResult = Cast(data: int) | BadAnyCast

  /** The pointer form: null for a null operand, an empty one, or another type. */
  method AnyCastPointer(m: Memory, operand: Any?, typ: TypeId) returns (p: Holder?)
    requires m.Valid() && (operand != null ==> operand in m.anys) && typ.Named?
    ensures p != null <==> operand != null && operand.View().Some? && operand.View().value.typ == typ
    ensures p != null ==> p in m.live && p == operand.content && p.held == operand.View().value.data
  {
    p := null;
    if operand != null {
      var t := operand.Type(m);
      if t == typ {
        p := operand.content;
      }
    }
  }

  /** The value form, which throws; the form for temporaries does the same and does not empty the operand. */
  method AnyCast(m: Memory, operand: Any, typ: TypeId) returns (r: CastResult)
    requires m.Valid() && operand in m.anys && typ.Named?
    ensures forall d :: r == Cast(d) <==> operand.View() == Some(Value(typ, d))
  {
    var p := AnyCastPointer(m, operand, typ);
    r := if p == null then BadAnyCast else Cast(p.held);
  }

  /** An assignment through the pointer changes that object and no copy of it. */
  method StoreThroughCast(m: Memory, operand: Any, typ: TypeId, data: int) returns (stored: bool)
    requires m.Valid() && operand in m.anys && typ.Named?
    modifies operand.content
    ensures m.Valid()
    ensures stored <==> old(m.Slots())[operand].Some? && old(m.Slots())[operand].value.typ == typ
    ensures m.Slots() == if stored then old(m.Slots())[operand := Some(Value(typ, data))] else old(m.Slots())
  {
    var p := AnyCastPointer(m, operand, typ);
    stored := p != null;
    if stored {
      p.held := data;
      assert forall a :: a in m.anys && a != operand ==> a.content != p;
    }
  }

  // ----- No sharing, no leaks

  /** What single ownership means, in terms of the pointers alone. */
  lemma SingleOwnership(m: Memory)
    requires m.Valid()
    ensures forall a, b :: a in m.anys && b in m.anys && a.content != null && a.content == b.content ==> a == b
    ensures forall a :: a in m.anys && a.content != null ==> a.content in m.live
    ensures forall h :: h in m.live ==> exists a :: a in m.anys && a.content == h
  {
  }

  /** As many live holders as non-empty objects. */
  lemma HoldersCounted(m: Memory)
    requires m.Valid()
    ensures |m.live| == |set a | a in m.anys && a.content != null|
    ensures m.anys == {} ==> m.live == {}
  {
    var owners := set a | a in m.anys && a.content != null;
    var owned := map a | a in owners :: a.content as Holder;
    forall h | h in m.live
      ensures exists a :: a in owned && owned[a] == h
    {
      var a :| a in m.anys && a.content == h;
      assert a in owned;
    }
    PairedUp(owned, m.live);
    assert owned.Keys == owners;
  }

  lemma {:induction false} PairedUp<A, B>(f: map<A, B>, image: set<B>)
    requires forall a :: a in f ==> f[a] in image
    requires forall a, b :: a in f && b in f && a != b ==> f[a] != f[b]
    requires forall h :: h in image ==> exists a :: a in f && f[a] == h
    ensures |f.Keys| == |image|
    decreases |f.Keys|
  {
    if a :| a in f {
      var g, rest := f - {a}, image - {f[a]};
      forall h | h in rest
        ensures exists b :: b in g && g[b] == h
      {
        var b :| b in f && f[b] == h;
        assert b in g;
      }
      PairedUp(g, rest);
      assert g.Keys == f.Keys - {a};
    } else {
      assert f.Keys == {};
      assert image == {};
    }
  }
}
