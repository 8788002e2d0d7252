/** The `Keyv` facade: namespace-qualified keys and encoded values on top of an
    adapter. The value codec (JSON in the original) is a pair of functions the
    caller supplies; whatever error they report is passed through unchanged. The
    decoder receives the destination's current value as well as the stored text,
    because decoding into a map or a struct keeps what the text does not mention. */
module Facade {
  import opened KeyvErrors
  import opened Adapters
  import opened Namespaces

  /** The elements of a key list. */
  function Elems(ks: seq<string>): set<string>
  {
    set k | k in ks
  }

  /** The outcome and the final store of removing `ks` one at a time, stopping at
      the first key whose removal fails. */
  function RemoveAll(store: map<string, string>, faulty: set<string>, ks: seq<string>)
    : (Outcome, map<string, string>)
    decreases |ks|
  {
    if ks == [] then (Pass, store)
    else if ks[0] in faulty then (Fail(IOError(ks[0])), store)
    else RemoveAll(store - {ks[0]}, faulty, ks[1..])
  }

  /** The position of the first key in `ks` whose removal fails, or |ks|. */
  function FirstFaulty(ks: seq<string>, faulty: set<string>): (i: nat)
    ensures i <= |ks|
    ensures forall j :: 0 <= j < i ==> ks[j] !in faulty
    ensures i < |ks| ==> ks[i] in faulty
  {
    if ks == [] then 0
    else if ks[0] in faulty then 0
    else 1 + FirstFaulty(ks[1..], faulty)
  }

  /** Removing a list of keys either succeeds and drops all of them, or fails on
      the first faulty key with every key before it dropped and the rest kept. */
  lemma {:induction false} RemoveAllClosedForm(store: map<string, string>, faulty: set<string>, ks: seq<string>)
    ensures var i := FirstFaulty(ks, faulty);
            RemoveAll(store, faulty, ks) ==
              if i == |ks| then (Pass, store - Elems(ks))
              else (Fail(IOError(ks[i])), store - Elems(ks[..i]))
    decreases |ks|
  {
    if ks == [] {
      assert store - Elems(ks) == store;
    } else if ks[0] in faulty {
      assert ks[..0] == [];
      assert store - Elems(ks[..0]) == store;
    } else {
      var rest := ks[1..];
      RemoveAllClosedForm(store - {ks[0]}, faulty, rest);
      var i := FirstFaulty(rest, faulty);
      assert FirstFaulty(ks, faulty) == i + 1;
      if i == |rest| {
        assert Elems(ks) == {ks[0]} + Elems(rest);
        assert store - {ks[0]} - Elems(rest) == store - Elems(ks);
      } else {
        assert ks[..i + 1] == [ks[0]] + rest[..i];
        assert Elems(ks[..i + 1]) == {ks[0]} + Elems(rest[..i]);
        assert store - {ks[0]} - Elems(rest[..i]) == store - Elems(ks[..i + 1]);
      }
    }
  }

  /** Removing keys never adds or changes a key: the final store is the initial
      store with some keys dropped, and keys outside the list are all kept. */
  lemma {:induction false} RemoveAllOnlyDrops(store: map<string, string>, faulty: set<string>, ks: seq<string>)
    ensures var after := RemoveAll(store, faulty, ks).1;
            && after.Keys <= store.Keys
            && (forall k :: k in after ==> after[k] == store[k])
            && (forall k :: k in store && k !in ks ==> k in after)
  {
    RemoveAllClosedForm(store, faulty, ks);
  }

  /** Removing a list of keys succeeds exactly when none of them is faulty. */
  lemma {:induction false} RemoveAllSucceedsIff(store: map<string, string>, faulty: set<string>, ks: seq<string>)
    ensures RemoveAll(store, faulty, ks).0 == Pass <==> forall k :: k in ks ==> k !in faulty
  {
    RemoveAllClosedForm(store, faulty, ks);
  }

  /** When `ks` lists every stored key, success leaves the store empty. */
  lemma RemoveAllEmpties(store: map<string, string>, faulty: set<string>, ks: seq<string>)
    requires forall k :: k in ks <==> k in store
    requires RemoveAll(store, faulty, ks).0 == Pass
    ensures RemoveAll(store, faulty, ks).1 == map[]
  {
    RemoveAllClosedForm(store, faulty, ks);
    assert Elems(ks) == store.Keys;
  }

  /** The keys of `ks` that lie in `namespace`, in order. */
  function Owned(namespace: string, ks: seq<string>): (r: seq<string>)
    ensures forall k :: k in r <==> k in ks && OwnedBy(namespace, k)
  {
    if ks == [] then []
    else if OwnedBy(namespace, ks[0]) then [ks[0]] + Owned(namespace, ks[1..])
    else Owned(namespace, ks[1..])
  }

  /** The facade record: the scheme it was built from, the adapter it drives, the
      connection string and the namespace. */
  datatype Keyv = Keyv(adapterName: string, adapter: Adapter, uri: string, namespace: string)
  {
    /** Reads the value stored under `key` into `dest`. A key the adapter does not
        hold leaves `dest` as it was and reports no error. */
    method Get<V>(key: string, dest: V, decode: (string, V) -> Result<V>) returns (err: Outcome, out: V)
      ensures var q := AddNS(namespace, key);
              && (q !in adapter.store ==> err == Pass && out == dest)
              && (q in adapter.store && q in adapter.faulty ==> err == Fail(IOError(q)) && out == dest)
              && (q in adapter.store && q !in adapter.faulty ==>
                    match decode(adapter.store[q], dest)
                    case Ok(v) => err == Pass && out == v
                    case Err(e) => err == Fail(e) && out == dest)
    {
      var q := AddNS(namespace, key);
      out := dest;
      var present := adapter.Has(q);
      if !present {
        return Pass, out;
      }
      var data := adapter.Get(q);
      if data.Err? {
        return Fail(data.error), out;
      }
      var decoded := decode(data.value, dest);
      if decoded.Err? {
        return Fail(decoded.error), out;
      }
      err, out := Pass, decoded.value;
    }

    /** Stores the encoding of `value` under `key`, overwriting any earlier value;
        no other key changes. */
    method Set<V>(key: string, value: V, encode: V -> Result<string>) returns (err: Outcome)
      modifies adapter
      ensures var q := AddNS(namespace, key);
              match encode(value)
              case Err(e) => err == Fail(e) && adapter.store == old(adapter.store)
              case Ok(raw) =>
                && (q in adapter.faulty ==> err == Fail(IOError(q)) && adapter.store == old(adapter.store))
                && (q !in adapter.faulty ==> err == Pass && adapter.store == old(adapter.store)[q := raw])
    {
      var q := AddNS(namespace, key);
      var data := encode(value);
      if data.Err? {
        return Fail(data.error);
      }
      err := adapter.Set(q, data.value);
    }

    /** `Remove` as written: it qualifies the key and calls itself instead of the
        adapter, so every call makes another with a longer key and none returns.
        `depth` bounds the number of nested calls the model follows; within any
        bound the call has not returned (None) and the store is untouched. */
    method RemoveAsWritten(key: string, depth: nat) returns (r: Option<Outcome>)
      ensures r == None
      decreases depth
    {
      var q := AddNS(namespace, key);
      if depth == 0 {
        r := None;
      } else {
        r := RemoveAsWritten(q, depth - 1);
      }
    }

    /** `Remove` as intended: delegate the qualified key to the adapter. Removing
        an absent key succeeds, so a second removal is harmless. */
    method Remove(key: string) returns (err: Outcome)
      modifies adapter
      ensures var q := AddNS(namespace, key);
              && (q in adapter.faulty ==> err == Fail(IOError(q)) && adapter.store == old(adapter.store))
              && (q !in adapter.faulty ==> err == Pass && adapter.store == old(adapter.store) - {q})
    {
      err := adapter.Remove(AddNS(namespace, key));
    }

    /** `Clear` as written: removes every key the adapter lists, whatever its
        namespace, and stops at the first failure. `listed` is the adapter's key
        list. */
    method Clear() returns (err: Outcome, ghost listed: seq<string>)
      modifies adapter
      ensures Distinct(listed) && forall k :: k in listed <==> k in old(adapter.store)
      ensures (err, adapter.store) == RemoveAll(old(adapter.store), adapter.faulty, listed)
      ensures err == Pass <==> forall k :: k in old(adapter.store) ==> k !in adapter.faulty
      ensures err == Pass ==> adapter.store == map[]
    {
      var keys := adapter.Keys();
      RemoveAllSucceedsIff(adapter.store, adapter.faulty, keys);
      listed := keys;
      var i := 0;
      while i < |keys|
        invariant 0 <= i <= |keys|
        invariant RemoveAll(old(adapter.store), adapter.faulty, keys)
                  == RemoveAll(adapter.store, adapter.faulty, keys[i..])
      {
        err := adapter.Remove(keys[i]);
        if err.Fail? {
          return;
        }
        i := i + 1;
      }
      err := Pass;
      RemoveAllEmpties(old(adapter.store), adapter.faulty, keys);
    }

    /** `Clear` as its documentation describes it: removes only the listed keys that
        lie in this facade's namespace, and stops at the first failure. */
    method ClearNamespace() returns (err: Outcome, ghost listed: seq<string>)
      modifies adapter
      ensures Distinct(listed) && forall k :: k in listed <==> k in old(adapter.store)
      ensures (err, adapter.store) == RemoveAll(old(adapter.store), adapter.faulty, Owned(namespace, listed))
      ensures err == Pass <==>
                forall k :: k in old(adapter.store) && OwnedBy(namespace, k) ==> k !in adapter.faulty
      ensures err == Pass ==> forall k :: k in adapter.store ==> !OwnedBy(namespace, k)
      ensures forall k :: k in adapter.store ==> k in old(adapter.store) && adapter.store[k] == old(adapter.store)[k]
      ensures forall k :: k in old(adapter.store) && !OwnedBy(namespace, k) ==> k in adapter.store
    {
      var keys := adapter.Keys();
      listed := keys;
      RemoveOwned(adapter.store, adapter.faulty, namespace, keys);
      var i := 0;
      while i < |keys|
        invariant 0 <= i <= |keys|
        invariant RemoveAll(old(adapter.store), adapter.faulty, Owned(namespace, keys))
                  == RemoveAll(adapter.store, adapter.faulty, Owned(namespace, keys[i..]))
      {
        assert keys[i..][1..] == keys[i + 1..];
        if OwnedBy(namespace, keys[i]) {
          err := adapter.Remove(keys[i]);
          if err.Fail? {
            return;
          }
        }
        i := i + 1;
      }
      err := Pass;
    }
  }

  /** Removing the keys of `ks` that lie in `namespace`, when `ks` lists the whole
      store: it succeeds exactly when none of those keys is faulty, success leaves
      no key of the namespace, and keys of other namespaces are always kept. */
  lemma RemoveOwned(store: map<string, string>, faulty: set<string>, namespace: string, ks: seq<string>)
    requires forall k :: k in ks <==> k in store
    ensures var (err, after) := RemoveAll(store, faulty, Owned(namespace, ks));
            && (err == Pass <==> forall k :: k in store && OwnedBy(namespace, k) ==> k !in faulty)
            && (err == Pass ==> forall k :: k in after ==> !OwnedBy(namespace, k))
            && (forall k :: k in after ==> k in store && after[k] == store[k])
            && (forall k :: k in store && !OwnedBy(namespace, k) ==> k in after)
  {
    RemoveAllSucceedsIff(store, faulty, Owned(namespace, ks));
    RemoveAllOnlyDrops(store, faulty, Owned(namespace, ks));
    RemoveAllClosedForm(store, faulty, Owned(namespace, ks));
  }

  /** A value written with Set is read back by Get when decoding its encoding into
      `dest` gives the value back and the backend can access the key. */
  method SetThenGet<V>(k: Keyv, key: string, v: V, dest: V,
                       encode: V -> Result<string>, decode: (string, V) -> Result<V>)
    returns (err: Outcome, out: V)
    requires encode(v).Ok? && decode(encode(v).value, dest) == Ok(v)
    requires AddNS(k.namespace, key) !in k.adapter.faulty
    modifies k.adapter
    ensures err == Pass && out == v
  {
    err := k.Set(key, v, encode);
    err, out := k.Get(key, dest, decode);
  }

  /** Writing a key of one namespace leaves every key of another namespace, present
      or absent, exactly as it was. */
  lemma SetIsolated(store: map<string, string>, ns: string, key: string, raw: string,
                    other: string, otherKey: string)
    requires ':' !in ns && ':' !in other && ns != other
    ensures var after := store[AddNS(ns, key) := raw];
            var q := AddNS(other, otherKey);
            (q in after <==> q in store) && (q in store ==> after[q] == store[q])
  {
    NamespaceIsolation(ns, key, other, otherKey);
  }

  /** Clear as written, run by a facade in `namespace`, also removes a key that
      does not belong to that namespace: on success every key of any other
      namespace is gone, although none of them carries the facade's prefix. */
  lemma ClearDropsSiblingKeys(store: map<string, string>, faulty: set<string>, ks: seq<string>,
                              namespace: string, other: string, key: string)
    requires forall k :: k in ks <==> k in store
    requires ':' !in namespace && ':' !in other && namespace != other
    requires RemoveAll(store, faulty, ks).0 == Pass
    ensures !OwnedBy(namespace, AddNS(other, key))
    ensures AddNS(other, key) !in RemoveAll(store, faulty, ks).1
  {
    ForeignKeyNotOwned(namespace, other, key);
    RemoveAllEmpties(store, faulty, ks);
  }

  /** A concrete instance: a facade in namespace "a" clearing a store that holds
      only "keyv:b:x" removes that key of namespace "b". */
  lemma ClearDropsSiblingKeyExample()
    ensures var store := map[AddNS("b", "x") := "1"];
            AddNS("b", "x") in store &&
            RemoveAll(store, {}, [AddNS("b", "x")]) == (Pass, map[])
  {
    var store := map[AddNS("b", "x") := "1"];
    assert store - {AddNS("b", "x")} == map[];
  }

  /** The namespace-scoped clear keeps every key of another namespace, and on
      success no key of its own namespace remains. */
  lemma ClearNamespaceScoped(store: map<string, string>, faulty: set<string>, ks: seq<string>,
                             ns: string, other: string, key: string)
    requires forall k :: k in ks <==> k in store
    requires ':' !in ns && ':' !in other && ns != other
    ensures var (err, after) := RemoveAll(store, faulty, Owned(ns, ks));
            && (AddNS(other, key) in store ==>
                  AddNS(other, key) in after && after[AddNS(other, key)] == store[AddNS(other, key)])
            && (err == Pass ==> forall q :: q in after ==> !OwnedBy(ns, q))
  {
    ForeignKeyNotOwned(ns, other, key);
    RemoveAllOnlyDrops(store, faulty, Owned(ns, ks));
    RemoveAllClosedForm(store, faulty, Owned(ns, ks));
  }
}
