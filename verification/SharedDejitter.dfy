/**
 Lifetime of the one dejitter that all aoo.client objects share.

 `DejitterHost` stands for Max's object registry together with the `x_dejitter` field of every
 live client. Its abstract value is only who has the dejitter switched on; the invariant
 `Valid` says that the reference counting code keeps one instance alive for exactly as long as
 somebody holds it.
 */
module SharedDejitters {
  import opened Dejitters

  class DejitterHost {
    // what is registered under the name "aoo_dejitter"
    var registered: Dejitter?
    // the clients that exist, with the dejitter each of them points to
    var held: map<nat, Dejitter?>
    ghost var freed: set<Dejitter>

    function Holders(): set<nat>
      reads this
    {
      set c | c in held && held[c] != null
    }

    ghost predicate Valid()
      reads this, registered
    {
      && (forall c :: c in held && held[c] != null ==> held[c] == registered)
      && (registered == null <==> Holders() == {})
      && (registered != null ==> registered.refcount == |Holders()| && registered !in freed)
    }

    // The abstract value: which clients exist, and which of them use the dejitter.
    function On(): map<nat, bool>
      reads this
    {
      map c | c in held :: held[c] != null
    }

    // The last holder let go between the two states, so the instance `d` is freed.
    ghost function FreedBy(d: Dejitter?, before: map<nat, bool>, after: map<nat, bool>): set<Dejitter> {
      if d != null && (exists c :: c in before && before[c]) && !(exists c :: c in after && after[c]) then {d} else {}
    }

    constructor ()
      ensures Valid() && On() == map[] && freed == {}
    {
      registered, held, freed := null, map[], {};
    }

    method Get() returns (x: Dejitter)
      requires Valid()
      modifies this`registered, registered
      ensures registered == x && x.refcount == |Holders()| + 1
      ensures old(registered) != null ==> x == old(registered) && x.State() == old(registered.State())
      ensures old(registered) == null ==> fresh(x) && x.State() == START
    {
      if registered != null {
        x := registered;
        x.refcount := x.refcount + 1;
      } else {
        x := new Dejitter();
        registered := x;
      }
    }

    method Release(x: Dejitter)
      requires Valid() && x == registered
      modifies this`registered, this`freed, x`refcount
      ensures x.refcount == |Holders()| - 1
      ensures registered == if |Holders()| == 1 then null else x
      ensures freed == if |Holders()| == 1 then old(freed) + {x} else old(freed)
    {
      x.refcount := x.refcount - 1;
      if x.refcount == 0 {
        registered, freed := null, freed + {x};
      } else if x.refcount < 0 {
        assert false;
      }
    }

    lemma LastHolder(c: nat)
      requires c in Holders()
      ensures |Holders()| == 1 <==> Holders() == {c}
    {
      assert Holders() == {c} + (Holders() - {c});
    }

    method ClientNew(c: nat)
      requires Valid() && c !in held
      modifies this, registered
      ensures Valid() && On() == old(On())[c := true]
      ensures freed == old(freed)
      ensures old(registered) != null ==> registered == old(registered) && registered.State() == old(registered.State())
      ensures old(registered) == null ==> fresh(registered) && registered.State() == START
    {
      held := held[c := null];
      assert Holders() == old(Holders());
      SwitchOn(c);
    }

    method LetGo(c: nat)
      requires Valid() && c in Holders()
      modifies this, registered`refcount
      ensures Valid() && On() == old(On())[c := false]
      ensures freed == old(freed) + FreedBy(old(registered), old(On()), On())
      ensures registered == if Holders() == {} then null else old(registered)
    {
      var x: Dejitter := held[c];
      ghost var before := Holders();
      LastHolder(c);
      Release(x);
      held := held[c := null];
      assert Holders() == before - {c};
      assert forall k :: k in held && held[k] != null ==> k in Holders();
      HoldersAreOn();
      assert old(On())[c];
    }

    // The holders are the clients whose dejitter is on.
    lemma HoldersAreOn()
      ensures forall k :: k in On() ==> (On()[k] <==> k in Holders())
      ensures (exists k :: k in On() && On()[k]) <==> Holders() != {}
    {
    }

    method SwitchOn(c: nat)
      requires Valid() && c in held && held[c] == null
      modifies this`registered, this`held, registered
      ensures Valid() && On() == old(On())[c := true]
      ensures old(registered) != null ==> registered == old(registered) && registered.State() == old(registered.State())
      ensures old(registered) == null ==> fresh(registered) && registered.State() == START
    {
      var x := Get();
      ghost var before := Holders();
      held := held[c := x];
      assert Holders() == before + {c};
    }

    method ClientDejitter(c: nat, f: real)
      requires Valid() && c in held
      modifies this, registered
      ensures Valid() && On() == old(On())[c := f != 0.0]
      ensures freed == old(freed) + FreedBy(old(registered), old(On()), On())
      ensures old(registered) != null && registered != null ==>
                registered == old(registered) && registered.State() == old(registered.State())
    {
      var dejitter := f != 0.0;
      HoldersAreOn();
      if dejitter && held[c] == null {
        SwitchOn(c);
        assert On()[c];
      } else if !dejitter && held[c] != null {
        LetGo(c);
      }
    }

    method ClientFree(c: nat)
      requires Valid() && c in held
      modifies this, registered
      ensures Valid() && On() == old(On()) - {c}
      ensures freed == old(freed) + FreedBy(old(registered), old(On()), On())
      ensures old(registered) != null && registered != null ==>
                registered == old(registered) && registered.State() == old(registered.State())
    {
      if held[c] != null {
        LetGo(c);
      }
      ghost var before := Holders();
      ghost var off := On();
      assert !off[c];
      held := held - {c};
      assert Holders() == before;
      assert On() == off - {c} == old(On()) - {c};
      assert forall k :: k in On() ==> (On()[k] <==> k in Holders());
      assert forall k :: k in off ==> (off[k] <==> k in before);
    }
  }
}
