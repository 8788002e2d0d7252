/** The `Adapter` interface, modelled by one in-memory backend whose state is a
    string-to-string map. Keys listed in `faulty` stand for the keys the backend
    cannot access: every Get, Set or Remove on them fails with an I/O error. A
    backend may already hold data when a facade first uses it, so the constructor
    takes the initial store; a faulty key held there is one the facade can see
    with Has but not read or remove. */
module Adapters {
  import opened KeyvErrors

  /** No key is listed twice. */
  predicate Distinct(ks: seq<string>)
  {
    forall i, j :: 0 <= i < j < |ks| ==> ks[i] != ks[j]
  }

  class Adapter {
    var store: map<string, string>
    const faulty: set<string>

    constructor (initial: map<string, string>, faulty: set<string>)
      ensures store == initial && this.faulty == faulty
    {
      store := initial;
      this.faulty := faulty;
    }

    method Has(key: string) returns (b: bool)
      ensures b <==> key in store
    {
      b := key in store;
    }

    method Get(key: string) returns (r: Result<string>)
      ensures key in faulty ==> r == Err(IOError(key))
      ensures key !in faulty && key !in store ==> r == Err(KeyNotFound(key))
      ensures key !in faulty && key in store ==> r == Ok(store[key])
    {
      if key in faulty {
        r := Err(IOError(key));
      } else if key !in store {
        r := Err(KeyNotFound(key));
      } else {
        r := Ok(store[key]);
      }
    }

    method Set(key: string, raw: string) returns (r: Outcome)
      modifies this
      ensures key in faulty ==> r == Fail(IOError(key)) && store == old(store)
      ensures key !in faulty ==> r == Pass && store == old(store)[key := raw]
    {
      if key in faulty {
        r := Fail(IOError(key));
      } else {
        store := store[key := raw];
        r := Pass;
      }
    }

    /** Removing a key the store does not hold succeeds and changes nothing. */
    method Remove(key: string) returns (r: Outcome)
      modifies this
      ensures key in faulty ==> r == Fail(IOError(key)) && store == old(store)
      ensures key !in faulty ==> r == Pass && store == old(store) - {key}
    {
      if key in faulty {
        r := Fail(IOError(key));
      } else {
        store := store - {key};
        r := Pass;
      }
    }

    /** Every stored key, each once, in an order the backend chooses. */
    method Keys() returns (ks: seq<string>)
      ensures Distinct(ks)
      ensures forall k :: k in ks <==> k in store
    {
      ks := [];
      var rest := store.Keys;
      while rest != {}
        invariant rest <= store.Keys
        invariant Distinct(ks)
        invariant forall k :: k in ks <==> k in store && k !in rest
        decreases rest
      {
        var k :| k in rest;
        ks := ks + [k];
        rest := rest - {k};
      }
    }
  }
}
