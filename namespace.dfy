/** Key qualification: every key the facade hands to its adapter is the caller's
    key behind the prefix "keyv:" + namespace + ":". Nothing is escaped. */
module Namespaces {

  /** The prefix shared by every qualified key of `namespace`. */
  function Prefix(namespace: string): string
  {
    "keyv:" + namespace + ":"
  }

  /** `addNS`: the qualified form of `key` under `namespace`. It starts with the
      namespace's prefix, and what follows the prefix is the caller's key. */
  function AddNS(namespace: string, key: string): (q: string)
    ensures OwnedBy(namespace, q)
    ensures q[|Prefix(namespace)|..] == key
  {
    "keyv:" + namespace + ":" + key
  }

  /** `q` lies in `namespace`'s part of the key space. */
  predicate OwnedBy(namespace: string, q: string)
  {
    Prefix(namespace) <= q
  }

  /** A key is owned by a namespace exactly when it is that namespace's
      qualification of some caller key. */
  lemma OwnedByIffQualified(namespace: string, q: string)
    ensures OwnedBy(namespace, q) <==> exists key :: q == AddNS(namespace, key)
  {
    if OwnedBy(namespace, q) {
      var key := q[|Prefix(namespace)|..];
      assert q == Prefix(namespace) + key;
      assert q == AddNS(namespace, key);
    }
  }

  /** For a fixed namespace, distinct keys give distinct qualified keys. */
  lemma AddNSInjective(namespace: string, k1: string, k2: string)
    requires AddNS(namespace, k1) == AddNS(namespace, k2)
    ensures k1 == k2
  {
  }

  /** Two namespaces that differ and contain no ':' never share a qualified key. */
  lemma NamespaceIsolation(ns1: string, k1: string, ns2: string, k2: string)
    requires ':' !in ns1 && ':' !in ns2 && ns1 != ns2
    ensures AddNS(ns1, k1) != AddNS(ns2, k2)
  {
    var q1, q2 := AddNS(ns1, k1), AddNS(ns2, k2);
    if |ns1| < |ns2| {
      assert q1[5 + |ns1|] == ':' && q2[5 + |ns1|] == ns2[|ns1|];
    } else if |ns2| < |ns1| {
      assert q2[5 + |ns2|] == ':' && q1[5 + |ns2|] == ns1[|ns2|];
    } else {
      var i :| 0 <= i < |ns1| && ns1[i] != ns2[i];
      assert q1[5 + i] == ns1[i] && q2[5 + i] == ns2[i];
    }
  }

  /** Under the same conditions, no key of one namespace is owned by the other. */
  lemma ForeignKeyNotOwned(ns: string, other: string, key: string)
    requires ':' !in ns && ':' !in other && ns != other
    ensures !OwnedBy(ns, AddNS(other, key))
  {
    OwnedByIffQualified(ns, AddNS(other, key));
    if k :| AddNS(other, key) == AddNS(ns, k) {
      NamespaceIsolation(ns, k, other, key);
    }
  }

  /** Without the restriction on ':' two namespaces can collide. */
  lemma NamespaceCollision()
    ensures AddNS("a", "b:x") == AddNS("a:b", "x") == "keyv:a:b:x"
  {
  }
}
