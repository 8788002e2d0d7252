/** The process-wide adapter registry and facade construction. The registry maps
    a scheme name to an adapter instance; `New` resolves a connection string's
    scheme against it. */
module Registry {
  import opened KeyvErrors
  import opened Adapters
  import opened Facade

  /** The effect of registering `adapter` under `name` on the table `m`: the first
      registration of a name wins, and an existing entry is never replaced. */
  function RegisterStep(m: map<string, Adapter>, name: string, adapter: Adapter)
    : (res: (Outcome, map<string, Adapter>))
    ensures res.0 == Pass <==> name !in m
    ensures res.0 != Pass ==> res.0 == Fail(AdapterNameExists)
    ensures res.1.Keys == m.Keys + {name}
    ensures forall k :: k in m ==> res.1[k] == m[k]
    ensures name !in m ==> res.1[name] == adapter
  {
    if name in m then (Fail(AdapterNameExists), m) else (Pass, m[name := adapter])
  }

  /** The table after a series of registrations, each applied in order. */
  function RegisterAll(m: map<string, Adapter>, regs: seq<(string, Adapter)>): map<string, Adapter>
    decreases |regs|
  {
    if regs == [] then m else RegisterAll(RegisterStep(m, regs[0].0, regs[0].1).1, regs[1..])
  }

  /** Registrations only add names: every entry already present survives unchanged. */
  lemma {:induction false} RegisterAllKeeps(m: map<string, Adapter>, regs: seq<(string, Adapter)>, name: string)
    requires name in m
    ensures name in RegisterAll(m, regs) && RegisterAll(m, regs)[name] == m[name]
    decreases |regs|
  {
    if regs != [] {
      RegisterAllKeeps(RegisterStep(m, regs[0].0, regs[0].1).1, regs[1..], name);
    }
  }

  /** First writer wins: a name not yet registered ends up bound to the adapter of
      its first registration in the series. */
  lemma {:induction false} RegisterAllFirstWins(m: map<string, Adapter>, regs: seq<(string, Adapter)>,
                                                name: string, i: nat)
    requires name !in m
    requires i < |regs| && regs[i].0 == name
    requires forall j :: 0 <= j < i ==> regs[j].0 != name
    ensures name in RegisterAll(m, regs) && RegisterAll(m, regs)[name] == regs[i].1
    decreases |regs|
  {
    var m' := RegisterStep(m, regs[0].0, regs[0].1).1;
    if i == 0 {
      RegisterAllKeeps(m', regs[1..], name);
    } else {
      RegisterAllFirstWins(m', regs[1..], name, i - 1);
    }
  }

  /** The global `adapters` table. */
  class Registry {
    var adapters: map<string, Adapter>

    constructor ()
      ensures adapters == map[]
    {
      adapters := map[];
    }

    /** `Register`: adds `adapter` under a new `name`, or reports that the name
        exists and leaves the table as it was. */
    method Register(name: string, adapter: Adapter) returns (err: Outcome)
      modifies this
      ensures (err, adapters) == RegisterStep(old(adapters), name, adapter)
      ensures name in old(adapters) ==> err == Fail(AdapterNameExists) && adapters == old(adapters)
      ensures name !in old(adapters) ==> err == Pass && adapters == old(adapters)[name := adapter]
    {
      if name in adapters {
        return Fail(AdapterNameExists);
      }
      adapters := adapters[name := adapter];
      err := Pass;
    }
  }

  /** `uri` holds the separator "://" at position `i`. */
  predicate SeparatorAt(uri: string, i: int)
  {
    0 <= i && i + 3 <= |uri| && uri[i] == ':' && uri[i + 1] == '/' && uri[i + 2] == '/'
  }

  /** `strings.SplitN(uri, "://", 2)[0]`: the part of `uri` before the first
      "://", or all of `uri` when it holds none. */
  function SchemeOf(uri: string): (scheme: string)
    ensures scheme <= uri
    ensures forall i :: 0 <= i < |scheme| ==> !SeparatorAt(uri, i)
    ensures scheme == uri || SeparatorAt(uri, |scheme|)
  {
    if |uri| < 3 then uri
    else if SeparatorAt(uri, 0) then ""
    else
      var rest := SchemeOf(uri[1..]);
      assert forall i :: 1 <= i ==> (SeparatorAt(uri, i) <==> SeparatorAt(uri[1..], i - 1));
      [uri[0]] + rest
  }

  /** A connection string "<scheme>://<rest>" whose scheme contains no ':' selects
      that scheme. */
  lemma {:induction false} SchemeOfConnectionString(scheme: string, rest: string)
    requires ':' !in scheme
    ensures SchemeOf(scheme + "://" + rest) == scheme
  {
    var uri := scheme + "://" + rest;
    if scheme == [] {
      assert SeparatorAt(uri, 0);
    } else {
      assert uri[0] == scheme[0] != ':';
      assert uri[1..] == scheme[1..] + "://" + rest;
      SchemeOfConnectionString(scheme[1..], rest);
    }
  }

  /** The namespace a facade uses: "default" in place of an empty one. */
  function DefaultNamespace(namespace: string): (ns: string)
    ensures ns != ""
    ensures namespace != "" ==> ns == namespace
    ensures namespace == "" ==> ns == "default"
  {
    if namespace == "" then "default" else namespace
  }

  /** `New`: resolves the scheme of `uri` in the registry table `adapters`. An
      unregistered scheme is an AdapterNotFound error (a panic in the original). */
  function New(adapters: map<string, Adapter>, uri: string, namespace: string): (r: Result<Keyv>)
    ensures r.Err? <==> SchemeOf(uri) !in adapters
    ensures r.Err? ==> r.error == AdapterNotFound
    ensures r.Ok? ==> && r.value.adapterName == SchemeOf(uri)
                      && r.value.adapter == adapters[SchemeOf(uri)]
                      && r.value.uri == uri
                      && r.value.namespace == DefaultNamespace(namespace)
  {
    var name := SchemeOf(uri);
    if name !in adapters then Err(AdapterNotFound)
    else Ok(Keyv(name, adapters[name], uri, DefaultNamespace(namespace)))
  }

  /** Facades built on the same scheme share one adapter instance. */
  lemma NewSharesAdapter(adapters: map<string, Adapter>, uri1: string, ns1: string, uri2: string, ns2: string)
    requires SchemeOf(uri1) == SchemeOf(uri2)
    ensures New(adapters, uri1, ns1).Ok? == New(adapters, uri2, ns2).Ok?
    ensures New(adapters, uri1, ns1).Ok? ==>
              New(adapters, uri1, ns1).value.adapter == New(adapters, uri2, ns2).value.adapter
  {
  }

  /** Construction from "<scheme>://<rest>" succeeds exactly when the scheme is
      registered, and then uses the adapter registered first under that scheme. */
  lemma NewUsesFirstRegistration(m: map<string, Adapter>, regs: seq<(string, Adapter)>, i: nat,
                                 scheme: string, rest: string, namespace: string)
    requires ':' !in scheme && scheme !in m
    requires i < |regs| && regs[i].0 == scheme
    requires forall j :: 0 <= j < i ==> regs[j].0 != scheme
    ensures var r := New(RegisterAll(m, regs), scheme + "://" + rest, namespace);
            r.Ok? && r.value.adapter == regs[i].1 && r.value.adapterName == scheme
  {
    SchemeOfConnectionString(scheme, rest);
    RegisterAllFirstWins(m, regs, scheme, i);
  }

  /** Construction from "<scheme>://<rest>" fails exactly when the scheme is not
      registered. */
  lemma NewFailsIffUnregistered(adapters: map<string, Adapter>, scheme: string, rest: string, namespace: string)
    requires ':' !in scheme
    ensures New(adapters, scheme + "://" + rest, namespace) == Err(AdapterNotFound) <==> scheme !in adapters
  {
    SchemeOfConnectionString(scheme, rest);
  }
}

/** A client of the package: one in-memory backend registered as "mem", two
    facades on it in different namespaces. */
module Scenario {
  import opened KeyvErrors
  import opened Adapters
  import opened Namespaces
  import opened Facade
  import opened Registry

  /** A value written through the "default" facade reads back there, is invisible
      to the "other" facade on the same backend, and is gone after Clear. */
  method TwoNamespacesOneBackend<V>(v: V, dest: V, encode: V -> Result<string>, decode: (string, V) -> Result<V>)
    returns (readErr: Outcome, readBack: V, otherErr: Outcome, seenByOther: V, clearedErr: Outcome, afterClear: V)
    requires encode(v).Ok? && decode(encode(v).value, dest) == Ok(v)
    ensures readErr == Pass && readBack == v
    ensures otherErr == Pass && seenByOther == dest
    ensures clearedErr == Pass && afterClear == dest
  {
    var registry := new Registry();
    var mem := new Adapter(map[], {});
    var err := registry.Register("mem", mem);
    assert registry.adapters == map["mem" := mem];
    SchemeOfConnectionString("mem", "x");
    assert "mem" + "://" + "x" == "mem://x";
    var k1 := New(registry.adapters, "mem://x", "").value;
    var k2 := New(registry.adapters, "mem://x", "other").value;
    assert k1.namespace == "default" && k2.namespace == "other";
    assert k1.adapter == mem && k2.adapter == mem;
    ghost var q1, q2 := AddNS("default", "count"), AddNS("other", "count");

    err := k1.Set("count", v, encode);
    assert mem.store == map[q1 := encode(v).value];
    readErr, readBack := k1.Get("count", dest, decode);

    NamespaceIsolation("default", "count", "other", "count");
    assert q2 !in mem.store;
    otherErr, seenByOther := k2.Get("count", dest, decode);

    ghost var listed;
    err, listed := k1.Clear();
    assert mem.store == map[];
    clearedErr, afterClear := k1.Get("count", dest, decode);
  }
}
