# keyv: a verified model of the key-value facade

This project models the Go package `keyv` (file `keyv.go`). The package puts a
facade, `Keyv`, over a pluggable string-to-string backend, the `Adapter`
interface. The facade does three things on top of the backend:

- it qualifies every caller key as `"keyv:" + Namespace + ":" + key`;
- it encodes values on `Set` and decodes them on `Get`;
- it removes keys one by one on `Clear`.

A process-wide registry maps a scheme name to an adapter instance. `Register`
adds an entry; the first registration of a name wins. `New` takes the scheme of a
connection string (the text before the first `"://"`) and looks it up. It then
builds the facade. An empty namespace becomes `"default"`.

Files and modules:

- `errors.dfy`, module `KeyvErrors`: the error values (`ErrAdapterNotFound`,
  `ErrAdapterNameExists`, backend and codec failures) and the `Outcome`/`Result`
  types that stand for Go's `error` returns.
- `adapter.dfy`, module `Adapters`: the `Adapter` interface, modelled by one
  in-memory backend. It is a class whose state is a `map<string, string>`. A
  fixed set `faulty` names the keys the backend cannot access; `Get`, `Set` and
  `Remove` on those keys fail with an I/O error. This is how backend failures
  reach the facade.
- `namespace.dfy`, module `Namespaces`: `addNS` and the lemmas about it. For one
  namespace, qualification is injective. Namespaces without `':'` are isolated
  from each other. Namespaces with `':'` can collide.
- `facade.dfy`, module `Facade`: the `Keyv` record and its operations.
  `RemoveAll` is the specification of removing a list of keys one at a time. It
  has a closed form, proved by induction, and `Clear` is proved against it.
- `registry.dfy`, module `Registry`: the registry class with `Register`, its
  specification `RegisterStep`, the first-writer-wins lemmas, `SchemeOf`
  (`strings.SplitN(uri, "://", 2)[0]`) and `New`. Module `Scenario` is a client
  that uses two namespaces on one backend.

The model follows keyv.go as written:

- The registry stores adapter instances. There is no factory and no connect
  step.
- An unknown scheme makes `New` panic. The model returns `Err(AdapterNotFound)`
  instead.
- `Get` on a missing key returns `nil` and leaves the destination alone.
- The `Adapter` interface has no prefix-scoped `Clear`, and its `Keys` cannot
  fail.
- The facade has no `Has` and no `Keys` operation.
- `Clear` removes every key the adapter lists, in every namespace.
- `Remove` calls itself instead of the adapter (see Findings).

Types and where they come from:

- `Adapters.Adapter` is the `Adapter` interface (keyv.go:11-17).
- `Facade.Keyv` is the `Keyv` struct (keyv.go:19-24). It is a value that holds a
  reference to its adapter, so facades built on one scheme share that adapter.
- `Registry.Registry` holds the global `adapters` map (keyv.go:89).

## Model

| member | source | states |
|---|---|---|
| `Adapters.Adapter.constructor` | keyv.go:11-17 | A backend starts with a given store and a fixed set of keys it cannot access. |
| `Adapters.Adapter.Has` | keyv.go:12 | Reports exactly whether the store holds the key. |
| `Adapters.Adapter.Get` | keyv.go:13 | Returns the stored string. A faulty key gives an I/O error, and an absent key gives a key-not-found error. |
| `Adapters.Adapter.Set` | keyv.go:14 | Maps the key to the raw string and changes nothing else. A faulty key fails and leaves the store unchanged. |
| `Adapters.Adapter.Remove` | keyv.go:15 | Drops the key, and succeeds when the key is absent. A faulty key fails and leaves the store unchanged. |
| `Adapters.Adapter.Keys` | keyv.go:16 | Lists every stored key exactly once and nothing else. |
| `Namespaces.AddNS` | keyv.go:26-29 | `addNS`. A qualified key starts with `"keyv:" + ns + ":"`, and the rest of it is the caller's key. |
| `Namespaces.OwnedByIffQualified` | keyv.go:27-29 | A string starts with a namespace's prefix if and only if it is that namespace's qualification of some key. |
| `Namespaces.AddNSInjective` | keyv.go:27-29 | For a fixed namespace, equal qualified keys come from equal caller keys. |
| `Namespaces.NamespaceIsolation` | keyv.go:27-29 | Two different namespaces without `':'` never give the same qualified key, whatever the keys. |
| `Namespaces.ForeignKeyNotOwned` | keyv.go:27-29 | Under the same conditions, a key of one namespace never carries the other's prefix. |
| `Namespaces.NamespaceCollision` | keyv.go:27-29 | Nothing is escaped: namespace `a` with key `b:x` and namespace `a:b` with key `x` both give `keyv:a:b:x`. |
| `Facade.Keyv.Get` | keyv.go:31-49 | If the qualified key is absent, returns no error and leaves the destination unchanged. A backend error is returned unchanged. Otherwise the stored text is decoded into the destination's current value. Get returns the result, or the decoder's error with the destination unchanged. The store is not modified. |
| `Facade.Keyv.Set` | keyv.go:51-62 | An encoding error is returned and the store is unchanged. A backend error leaves the store unchanged. Otherwise the store maps the qualified key to the encoding, and every other key is as it was. |
| `Facade.SetThenGet` | keyv.go:32-62 | Get returns what Set wrote when two conditions hold: decoding the value's encoding into the destination gives the value back, and the backend can access the key. |
| `Facade.SetIsolated` | keyv.go:52-62 | Writing a key in one namespace leaves every key of another namespace without `':'` as it was. This holds for both present and absent keys. |
| `Facade.Keyv.RemoveAsWritten` | keyv.go:64-70 | The call qualifies the key and calls itself again. Within any bound on nested calls it never returns, and it never touches the store. |
| `Facade.Keyv.Remove` | keyv.go:64-70 | Corrected version: drops exactly the qualified key through the adapter, or returns the adapter's error with the store unchanged. |
| `Facade.RemoveAllClosedForm` | keyv.go:74-81 | Removing a key list either succeeds and drops every listed key, or stops at the first failing key. On failure the error names that key, the keys before it are gone and the rest are kept. |
| `Facade.RemoveAllOnlyDrops` | keyv.go:74-81 | Removing keys never adds or changes an entry. Unlisted keys are kept. |
| `Facade.RemoveAllSucceedsIff` | keyv.go:74-81 | The removal loop succeeds if and only if no listed key is faulty. |
| `Facade.RemoveAllEmpties` | keyv.go:73-82 | If the list names every stored key, success leaves the store empty. |
| `Facade.Keyv.Clear` | keyv.go:72-82 | As written: removes the adapter's full key list in order and stops at the first error. It succeeds exactly when no stored key is faulty, and on success the store is empty, whatever the namespace. |
| `Facade.ClearDropsSiblingKeys` | keyv.go:72-82 | Take a successful Clear by a facade in one namespace, and a key of another namespace, both without `':'`. That key does not carry the facade's prefix, yet the Clear removes it. |
| `Facade.ClearDropsSiblingKeyExample` | keyv.go:72-82 | Example: Clear on a store that holds only `keyv:b:x` succeeds and empties it. |
| `Facade.Keyv.ClearNamespace` | keyv.go:72-82 | Corrected version: removes only the listed keys under `"keyv:" + ns + ":"`. It succeeds exactly when none of them is faulty. Then no key of the namespace remains. Other keys are kept and no value changes. |
| `Facade.ClearNamespaceScoped` | keyv.go:72-82 | The corrected clear keeps every key of a sibling namespace and its value. |
| `Registry.Registry.constructor` | keyv.go:89 | The global table starts empty. |
| `Registry.RegisterStep` | keyv.go:92-100 | Succeeds exactly when the name is new. Otherwise it fails with `AdapterNameExists`. The table gains only the name, existing entries never change, and a new name maps to the given adapter. |
| `Registry.Registry.Register` | keyv.go:91-100 | On a new name, adds exactly that entry and returns no error. On an existing name, returns `AdapterNameExists` and leaves the table unchanged. |
| `Registry.RegisterAllKeeps` | keyv.go:92-100 | Over any series of registrations, an entry that is already registered is never replaced. |
| `Registry.RegisterAllFirstWins` | keyv.go:92-100 | After any series of registrations, a new name maps to the adapter of its first registration. |
| `Registry.SchemeOf` | keyv.go:104 | The result is a prefix of the URI and holds no `"://"`. It is either the whole URI or is followed by `"://"`, so it ends at the first separator. |
| `Registry.SchemeOfConnectionString` | keyv.go:104 | For `scheme + "://" + rest` where the scheme has no `':'`, the extracted scheme is that scheme. |
| `Registry.DefaultNamespace` | keyv.go:111-113 | The namespace is never empty. It is `"default"` for an empty one and unchanged otherwise. |
| `Registry.New` | keyv.go:102-123 | Fails with `AdapterNotFound` exactly when the scheme is unregistered. Otherwise it records the scheme, uses the registered adapter instance itself, keeps the URI and normalises the namespace. |
| `Registry.NewSharesAdapter` | keyv.go:104-117 | Facades built on the same scheme hold the same adapter instance. |
| `Registry.NewFailsIffUnregistered` | keyv.go:104-109 | Building from `scheme://rest` fails exactly when the scheme is not registered. |
| `Registry.NewUsesFirstRegistration` | keyv.go:92-117 | After a series of registrations, building from `scheme://rest` uses the adapter registered first under that scheme. |
| `Scenario.TwoNamespacesOneBackend` | keyv.go:32-82 | Two facades share a backend. A value set in `default` reads back there with no error. A Get from `other` returns no error and leaves the destination unchanged, as does a Get in `default` after `Clear`. |

## Findings

| source | as written | input that shows it | evidently intended | confidence | as-written member | corrected member |
|---|---|---|---|---|---|---|
| keyv.go:65-70 | `Remove` qualifies the key and calls `k.Remove` again. The recursion has no base case, the key grows with every call, and the backend is never reached. | Any call, e.g. `Remove("a")` | Call `k.Adapter.Remove` on the qualified key | high; not executed | `Facade.Keyv.RemoveAsWritten` | `Facade.Keyv.Remove` |
| keyv.go:72-82 | `Clear` removes every key the adapter lists, although its comment says it clears only the facade's namespace | A store holding `keyv:b:x`, cleared through a facade in namespace `a` (`Facade.ClearDropsSiblingKeyExample`) | Remove only keys that start with `"keyv:" + Namespace + ":"` | medium; not executed | `Facade.Keyv.Clear` | `Facade.Keyv.ClearNamespace` |

## Left out

- JSON encoding and decoding (`encoding/json`): a library outside the package. `Set` and `Get` take the encoder and the decoder as function parameters and pass their errors through unchanged. Nothing is proved about the JSON format.
- Facade.Keyv.Get: if decoding fails, the destination is modelled as unchanged. `json.Unmarshal` can partly fill it before a type error. On success the decoder sees the destination's current value, so merging into a map or a struct is within the model.
- A nil adapter: Go lets `Register(name, nil)` store a nil interface, and `New` then returns a facade whose first Get, Set or Clear panics. Adapter references in the model are never null, so this input is not modelled.
- The blank import of the SQLite driver: it only registers a driver as a side effect.
- Concrete backends: one in-memory adapter with a fixed set of failing keys stands for every implementation of the interface. Any other backend behaviour is not part of this model.
- The order of `Keys()`: the in-memory adapter lists keys in an order it chooses, and `Clear` is proved for every such order.
- Concurrent access to the global `adapters` map: the registry is sequential state. `New` takes the registry's current table as a parameter.
- The panic in `New`: it becomes an `Err(AdapterNotFound)` result.
- Facade.Keyv.RemoveAsWritten: every method of the model terminates, so it follows the self-call only down to a given depth. The original runs until the goroutine's stack is exhausted.
