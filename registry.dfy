/** The content registry: the set of content classes a site knows about. */
module Registries {
  import opened Outcomes
  import opened Widgets

  class Registry {
    /** The registered classes (what `keys()` returns). */
    var keys: set<Kind>

    constructor ()
      ensures keys == {}
    {
      keys := {};
    }

    /** register: adds a class; a class that is already registered raises and the
        registry is left as it was. */
    method Register(k: Kind) returns (r: Outcome)
      modifies this
      ensures r == (if k in old(keys) then Fail(AlreadyRegistered) else Pass)
      ensures keys == old(keys) + {k}
    {
      if k in keys {
        return Fail(AlreadyRegistered);
      }
      keys := keys + {k};
      return Pass;
    }

    /** unregister: removes a class; a class that is not registered raises and the
        registry is left as it was. */
    method Unregister(k: Kind) returns (r: Outcome)
      modifies this
      ensures r == (if k in old(keys) then Pass else Fail(NotRegistered))
      ensures keys == old(keys) - {k}
    {
      if k !in keys {
        return Fail(NotRegistered);
      }
      keys := keys - {k};
      return Pass;
    }
  }

  /** The four registry tests, each replayed on a fresh registry: after register the class
      is a key; after register and unregister it is not; a second register raises; and
      unregistering a class never registered raises. */
  method RegistryScenario(k: Kind) returns (registered: set<Kind>, unregistered: set<Kind>,
                                            twice: Outcome, unknown: Outcome)
    ensures k in registered
    ensures k !in unregistered
    ensures twice == Fail(AlreadyRegistered)
    ensures unknown == Fail(NotRegistered)
  {
    var r := new Registry();
    var _ := r.Register(k);
    registered := r.keys;

    r := new Registry();
    var _ := r.Register(k);
    var _ := r.Unregister(k);
    unregistered := r.keys;

    r := new Registry();
    var _ := r.Register(k);
    twice := r.Register(k);

    r := new Registry();
    unknown := r.Unregister(k);
  }
}
