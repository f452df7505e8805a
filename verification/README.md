# DI-Framework-Adapter: the interoperability layer in Dafny

This project models the dependency-injection interoperability layer of
DI-Framework-Adapter (`src/adapters`) as a functional state machine over
finite maps:

- **Two adapters** turn `(interface, name)` into an engine slot. The
  dependency-injector adapter uses the attribute string `"{Interface}_{name}"`,
  or the interface's `__name__` when the name is falsy. The injector adapter
  uses the same string for named bindings and the class itself for unnamed
  ones. Each adapter stores a provider with a lifetime. A singleton hands out
  one cached instance per binding; otherwise every `get` calls the provider again
  (`engine.dfy`, `dependency_injector_adapter.dfy`, `injector_adapter.dfy`).
- **The adapter contract** (`adapters.dfy`) covers the closed set of
  engines `{Injector, DependencyInjector}`. Only the dependency-injector adapter
  reports an unbound slot as `AttributeError`.
- **The factory** (`adapter_factory.dfy`) maps the exact names `"injector"` and
  `"dependency_injector"` to a fresh, empty adapter. Any other name raises
  `ValueError`.
- **The bridge** `InteroperableDIAdapter` (`interoperable_adapter.dfy`,
  `interoperable_properties.dfy`) owns a primary adapter, a secondary adapter,
  a registry `(interface, name) -> instance` and a fresh-number counter. It
  provides `bind`, `get`, `connect_frameworks` and `integrate_dependency`.

Python object identity is modelled by fresh numbers. Every constructed object is
`Instance(id, cls)`, and `id` comes from the bridge's counter, so "the same
object" means `==`. A class is `Interface(name, tag)`: `name` is its
`__name__`, and `tag` tells apart distinct classes that share a name. Providers are
`Construct(cls)` (a class passed as `to`) or `Constant(x)` (the closure
`lambda: implementation` that `connect_frameworks` binds). A bridge step returns
the next bridge together with a `Result`. A step that fails part-way keeps the
effects it had already had. For example, when `integrate_dependency` fails on the
secondary, the primary has already resolved (and possibly cached) its instance.

Some consequences of the code that a reader of its comments might not expect; the model follows the code:

- The registry's keys only grow, but an entry's instance can be replaced. A
  later singleton `bind`, a singleton `connect_frameworks` or any
  `integrate_dependency` overwrites it (`RegistryEntryCanBeReplaced`).
  `integrate_dependency` also caches transient bindings.
- `get` falls back to the secondary only on `AttributeError`, not on any
  "not bound" failure. With an injector primary the fallback never happens
  (`InjectorPrimaryNeverFallsBack`).
- `connect_frameworks` with `is_singleton=False` still binds the single
  captured instance. The other side then returns that one object on every call,
  while the bridge's `get` keeps building new ones on the primary
  (`ConnectTransientMismatch`). This is modelled as written.
- The registry key is the raw `(interface, name)` pair, so `None` and `""` are
  different registry keys, even though both adapters treat them alike
  (`EmptyNameSingletonSeenWithoutName`).

## Model

| member | source | states |
|---|---|---|
| Values.QualifiedInjective | src/adapters/dependency_injector_adapter.py:19 | for one interface, `"{Interface}_{n1}" == "{Interface}_{n2}"` forces `n1 == n2` |
| Engine.Register | src/adapters/dependency_injector_adapter.py:20 | storing a provider under a slot is last-write-wins: the slot holds the new registration with no cached instance, and every other slot's registration and cached instance are unchanged |
| Engine.Produce | src/adapters/dependency_injector_adapter.py:14-31 | resolution never changes registrations or other slots' caches; a singleton slot is pinned to its instance afterwards; a pinned slot returns its instance again; a transient class binding yields an object with the next fresh number and leaves the engine unchanged; the fresh-number invariant is kept |
| DependencyInjectorAdapter.Bind | src/adapters/dependency_injector_adapter.py:12-20 | the attribute now holds `(to, is_singleton)` with nothing cached, attributes with other names are untouched, and `get` with the same arguments succeeds |
| DependencyInjectorAdapter.Get | src/adapters/dependency_injector_adapter.py:23-31 | `get` succeeds exactly when a provider is stored under the attribute; otherwise it raises `AttributeError` naming that attribute |
| DependencyInjectorAdapter.EmptyNameIsUnnamed | src/adapters/dependency_injector_adapter.py:19-25 | an empty-string name binds and resolves exactly like no name |
| DependencyInjectorAdapter.NamedCollidesWithUnnamed | src/adapters/dependency_injector_adapter.py:19 | `(A, "b")` and the distinct class `A_b` without a name share one attribute, so binding one overwrites the other |
| DependencyInjectorAdapter.SameNamedClassesShareSlot | src/adapters/dependency_injector_adapter.py:19 | two classes with equal `__name__` share a slot: the key is the name, not the class |
| DependencyInjectorAdapter.NamedSlotsDistinct | src/adapters/dependency_injector_adapter.py:19 | for one interface, distinct non-empty names give distinct attributes |
| InjectorAdapter.Bind | src/adapters/injector_adapter.py:12-21 | the key now holds `(to, is_singleton)` with nothing cached, other keys are untouched, and `get` with the same arguments succeeds |
| InjectorAdapter.Get | src/adapters/injector_adapter.py:23-27 | `get` succeeds exactly when the key is bound; an unbound key fails with the injector's own error for that key |
| InjectorAdapter.KeyKinds | src/adapters/injector_adapter.py:16-19 | a named key never equals an unnamed one; unnamed keys are equal exactly when the classes are the same class |
| InjectorAdapter.EmptyNameIsUnnamed | src/adapters/injector_adapter.py:16-27 | an empty-string name takes the class-keyed branch in both `bind` and `get` |
| InjectorAdapter.NamedKeysCollide | src/adapters/injector_adapter.py:17-26 | `(A, "b_c")` and `(A_b, "c")` produce the same key |
| InjectorAdapter.NamedKeysDistinct | src/adapters/injector_adapter.py:17 | for one interface, distinct non-empty names give distinct keys |
| Adapters.Bind | src/adapters/di_container.py:9-11 | whatever the engine, the computed slot holds `(to, is_singleton)` with nothing cached, every other slot keeps its registration and its cached instance, and no slot appears from nowhere |
| Adapters.Get | src/adapters/di_container.py:15-17 | `get` succeeds exactly when the slot is bound; a failure is `AttributeError` exactly when the engine is dependency-injector |
| Adapters.BindKeepsOtherYields | src/adapters/injector_adapter.py:21 | binding one slot leaves every other slot's pinned (cached or constant) instance as it was |
| Adapters.PinnedEveryTime | src/adapters/dependency_injector_adapter.py:14 | once a slot is pinned to `x`, each of any number of successive `get` calls returns `x` |
| Adapters.SingletonSameInstance | src/adapters/injector_adapter.py:17-19 | on a singleton binding, any number of successive `get` calls return one and the same instance |
| Adapters.TransientFreshEveryTime | src/adapters/dependency_injector_adapter.py:14 | on a transient class binding, the j-th successive `get` builds a new object of that class with fresh number `next + j` |
| Adapters.TransientDistinct | src/adapters/injector_adapter.py:19 | on a transient class binding, two different `get` calls never return the same object |
| Adapters.NamedSlotShared | src/adapters/dependency_injector_adapter.py:19 | under either engine, a named binding `(I, q)` shares its slot with `(I, other)` only if `other` is the same non-empty name `q`; it never shares the unnamed slot |
| Adapters.QualifiersPartition | src/adapters/injector_adapter.py:16-19 | binding `(I, q)` does not change whether `(I, None)` or `(I, q2)` with `q2 != q` resolves, nor what it resolves to |
| AdapterFactory.GetDIAdapter | src/adapters/di_adapter_factory.py:12-22 | succeeds exactly for the two supported names and then yields an empty adapter of that framework; any other name raises `ValueError` carrying the name |
| AdapterFactory.SupportedNames | src/adapters/di_adapter_factory.py:13-22 | `"injector"` and `"dependency_injector"` are accepted; `"pinject"`, `"wired"` and `"Injector"` are refused |
| AdapterFactory.FreshAdapterResolvesNothing | src/adapters/di_adapter_factory.py:14-16 | a freshly built adapter shares no bindings: every `get` on it fails |
| InteroperableDIAdapter.New | src/adapters/interoperable_adapter.py:6-9 | construction succeeds exactly when both names are supported, fails on the primary's name first, and gives an empty registry and two empty adapters of the named frameworks |
| InteroperableDIAdapter.Bind | src/adapters/interoperable_adapter.py:11-19 | never fails, since providers cannot raise in the model; the secondary receives exactly the same bind as the primary and the primary's registrations match it; a non-singleton leaves the registry and counter as they were; for a singleton, the primary and the counter are exactly as after binding and then calling `get` on the primary once, and the registry entry is the instance the primary now returns on every `get` (a new object for a class, the captured one for a constant), with other entries unchanged |
| InteroperableDIAdapter.Get | src/adapters/interoperable_adapter.py:21-30 | a registry hit returns the entry and changes nothing; on a miss the primary answers; the secondary is consulted only after `AttributeError`, and any other error, or the secondary's own error, is raised with the bridge unchanged; the registry is never written |
| InteroperableDIAdapter.ConnectFrameworks | src/adapters/interoperable_adapter.py:32-45 | a failed source resolution changes nothing; otherwise the other side is rebound to a constant provider of exactly that instance, so it returns it from then on; the source side and the counter are exactly as after that one resolution; and the registry gains the entry only when `is_singleton` |
| InteroperableDIAdapter.IntegrateDependency | src/adapters/interoperable_adapter.py:47-55 | returns the primary's and the secondary's instances, writes both into the registry with the second write winning on equal keys, touches no other entry, leaves the counter as after the secondary's resolution, and keeps the primary's effects when only the secondary fails |
| InteroperableProperties.SecondaryFallback | src/adapters/interoperable_adapter.py:27-30 | a key bound only on the secondary, under a dependency-injector primary, is served by the secondary |
| InteroperableProperties.InjectorPrimaryNeverFallsBack | src/adapters/interoperable_adapter.py:27-30 | under an injector primary an unbound key raises the injector's error and the secondary is never asked |
| InteroperableProperties.TransientGetIsFresh | src/adapters/interoperable_adapter.py:27-28 | a registry miss on a transient class binding returns an object different from every registry entry and every cached instance of either adapter |
| InteroperableProperties.SingletonBindThenGet | src/adapters/interoperable_adapter.py:17-25 | after a singleton `bind`, the bridge's `get` returns the registry entry and the primary's own `get` returns that same object on every call |
| InteroperableProperties.TransientBindThenGetTwice | src/adapters/interoperable_adapter.py:11-28 | after a transient `bind` of a class, two successive bridge `get` calls return two distinct new objects |
| InteroperableProperties.EmptyNameSingletonSeenWithoutName | src/adapters/interoperable_adapter.py:13-28 | a singleton bound under `""` is not in the registry under `None`, yet `get` without a name returns the same instance through the primary |
| InteroperableProperties.ConnectSharesInstance | src/adapters/interoperable_adapter.py:36-45 | after `connect_frameworks`, the other side returns the source's instance on every call whatever the lifetime, and with `is_singleton` the bridge's `get` returns it too |
| InteroperableProperties.ConnectTransientMismatch | src/adapters/interoperable_adapter.py:39-41 | after a transient `connect_frameworks`, the secondary repeats the captured instance while the bridge's `get` returns a different, new object |
| InteroperableProperties.IntegrateThenGet | src/adapters/interoperable_adapter.py:49-55 | after `integrate_dependency` returns `(p, s)`, `get` yields `s` for the secondary interface and `p` for the primary one (`s` when they coincide) |
| InteroperableProperties.RegistryEntryCanBeReplaced | src/adapters/interoperable_adapter.py:17-19 | with a dependency-injector primary, binding the same singleton key twice replaces the registry's instance by a new one, since each rebind creates a new `providers.Singleton` |
| InteroperableProperties.SingletonScenario | src/adapters/interoperable_adapter.py:6-25 | a new injector/dependency-injector bridge with a singleton binding returns the same object on two `get` calls |

## Left out

- Logging: the `print` call in the dependency-injector `bind` is not modelled.
- Error wording: errors carry the attribute or framework name they report, not the full message text.
- Unbound keys on the injector engine: the library may auto-construct an unbound class or raise one of several errors. The model always raises one opaque error that is not `AttributeError`, because the library's behaviour is outside this code.
- Rebinding a singleton: both engines forget the cached instance when a slot is rebound, as dependency-injector does with its new provider object. The injector library's scope bookkeeping on rebind is not modelled.
- Providers: `to` is a class or a constant closure. Arbitrary factory callables, including ones that call back into an adapter, and constructor-argument injection are not modelled.
- `DynamicContainer` attributes: built-in container attributes that could clash with a computed attribute name are not modelled.
- Names: `name` is an optional string; other Python values are not modelled.
- The abstract base class `di_container.py` becomes the closed variant `Adapters.Framework` with the two engines; the unreachable pinject and wired adapters are not part of this model.
- The demo script, the demo services and the structure-generation utilities are not part of this model.
- Object identity and the runtime: Python object identity is replaced by fresh numbers. There is no concurrency in the source.
- InteroperableProperties.ConnectSharesInstance: under an injector target, the program gives this guarantee only while that slot has not already been resolved as a singleton, because the injector library's singleton scope may keep the earlier instance across the rebind; the model forgets it.
- InteroperableDIAdapter.Bind: providers never raise in the model (a class always constructs, a constant is always returned), so the eager resolution of a singleton on the primary (src/adapters/interoperable_adapter.py:18) cannot fail; in the program a constructor that raises makes `bind` raise after both adapters have already been rebound.
- InteroperableDIAdapter.Get: the fallback to the secondary is triggered only by an unbound dependency-injector slot; in the program an `AttributeError` raised inside a constructor during the primary's resolution (src/adapters/interoperable_adapter.py:27-29) also sends the call to the secondary, which the model does not represent because construction cannot fail here.
- InteroperableDIAdapter.Bind: its fresh-number invariant is promised only when a constant provider's instance was itself drawn from this bridge; instances made elsewhere are not tracked.
