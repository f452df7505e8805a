/** Properties of the bridge that relate several steps: lifetimes seen
    through the bridge, the fallback policy, identity sharing by
    `connect_frameworks`, and what `integrate_dependency` leaves behind. */
module InteroperableProperties {
  import opened Values
  import opened Engine
  import Adapters
  import InjectorAdapter
  import opened InteroperableDIAdapter

  /** A key present only on the secondary (dependency-injector primary, no
      registry entry) is still served, by the secondary. */
  lemma SecondaryFallback(b: Bridge, iface: Interface, name: Option<string>)
    requires RegistryKey(iface, name) !in b.registry
    requires b.primary.framework == Adapters.DependencyInjector
    requires Adapters.SlotOf(b.primary.framework, iface, name) !in b.primary.container.regs
    requires Adapters.SlotOf(b.secondary.framework, iface, name) in b.secondary.container.regs
    ensures var s := Adapters.Get(b.secondary, iface, name, b.next).value;
            Get(b, iface, name) == Step(b.(secondary := s.adapter, next := s.next), Ok(s.inst))
  {
  }

  /** With an injector primary the fallback never happens: an unbound key
      fails with the injector's own error, whatever the secondary holds. */
  lemma InjectorPrimaryNeverFallsBack(b: Bridge, iface: Interface, name: Option<string>)
    requires RegistryKey(iface, name) !in b.registry
    requires b.primary.framework == Adapters.Injector
    requires InjectorAdapter.Key(iface, name) !in b.primary.container.regs
    ensures Get(b, iface, name) == Step(b, Err(Unsatisfied(InjectorAdapter.Key(iface, name))))
  {
  }

  /** A registry miss on a transient class binding builds an object the
      bridge has never handed out: it differs from every registry entry and
      every instance either adapter has cached. */
  lemma TransientGetIsFresh(b: Bridge, iface: Interface, name: Option<string>)
    requires Valid(b)
    requires RegistryKey(iface, name) !in b.registry
    requires var s := Adapters.SlotOf(b.primary.framework, iface, name);
             s in b.primary.container.regs && !b.primary.container.regs[s].singleton
             && b.primary.container.regs[s].provider.Construct?
    ensures var r := Get(b, iface, name);
            && r.result.Ok?
            && (forall k :: k in b.registry ==> b.registry[k] != r.result.value)
            && (forall s :: s in b.primary.container.cache ==> b.primary.container.cache[s] != r.result.value)
            && (forall s :: s in b.secondary.container.cache ==> b.secondary.container.cache[s] != r.result.value)
  {
    var r := Get(b, iface, name);
    assert r.result.value.id == b.next;
  }

  /** Singleton through the bridge: after `bind`, every `get` returns the
      registry's instance, and the primary's own `get` agrees with it. */
  lemma SingletonBindThenGet(b: Bridge, iface: Interface, to: Provider, name: Option<string>, k: nat)
    ensures var b1 := Bind(b, iface, to, true, name).bridge;
            var x := b1.registry[RegistryKey(iface, name)];
            && Get(b1, iface, name) == Step(b1, Ok(x))
            && Adapters.GetTimes(b1.primary, iface, name, b1.next, k) == Ok(seq(k, _ => x))
  {
    var b1 := Bind(b, iface, to, true, name).bridge;
    Adapters.PinnedEveryTime(b1.primary, iface, name, b1.registry[RegistryKey(iface, name)], b1.next, k);
  }

  /** Transient through the bridge: after binding a class without singleton
      lifetime, two successive `get` calls return two distinct objects. */
  lemma TransientBindThenGetTwice(b: Bridge, iface: Interface, cls: Interface, name: Option<string>)
    requires RegistryKey(iface, name) !in b.registry
    ensures var b1 := Bind(b, iface, Construct(cls), false, name).bridge;
            var g1 := Get(b1, iface, name);
            var g2 := Get(g1.bridge, iface, name);
            && g1.result == Ok(Instance(b.next, cls))
            && g2.result == Ok(Instance(b.next + 1, cls))
            && g1.result.value != g2.result.value
  {
  }

  /** Binding with the empty name stores the registry entry under `""`, yet
      `get` without a name still returns that same instance: the registry
      misses, and the primary resolves the same slot from its singleton cache. */
  lemma EmptyNameSingletonSeenWithoutName(b: Bridge, iface: Interface, to: Provider)
    requires RegistryKey(iface, None) !in b.registry
    ensures var b1 := Bind(b, iface, to, true, Some("")).bridge;
            && RegistryKey(iface, None) !in b1.registry
            && Get(b1, iface, None).result == Ok(b1.registry[RegistryKey(iface, Some(""))])
  {
    var b1 := Bind(b, iface, to, true, Some("")).bridge;
    assert Adapters.SlotOf(b1.primary.framework, iface, Some("")) == Adapters.SlotOf(b1.primary.framework, iface, None);
  }

  /** After `connect_frameworks`, the other side hands out exactly the
      instance resolved on the source side, on every one of `k` calls, even
      when the binding is not a singleton; with a singleton the bridge's
      own `get` returns it too. */
  lemma ConnectSharesInstance(b: Bridge, iface: Interface, fromSecondary: bool, name: Option<string>, isSingleton: bool, k: nat)
    requires Adapters.Get(Source(b, fromSecondary), iface, name, b.next).Ok?
    ensures var impl := Adapters.Get(Source(b, fromSecondary), iface, name, b.next).value.inst;
            var b1 := ConnectFrameworks(b, iface, fromSecondary, name, isSingleton).bridge;
            var t := Target(b1, fromSecondary);
            && Adapters.GetTimes(t, iface, name, b1.next, k) == Ok(seq(k, _ => impl))
            && (isSingleton ==> Get(b1, iface, name) == Step(b1, Ok(impl)))
  {
    var impl := Adapters.Get(Source(b, fromSecondary), iface, name, b.next).value.inst;
    var b1 := ConnectFrameworks(b, iface, fromSecondary, name, isSingleton).bridge;
    Adapters.PinnedEveryTime(Target(b1, fromSecondary), iface, name, impl, b1.next, k);
  }

  /** The lifetime mismatch `connect_frameworks` leaves for a transient
      class binding: the secondary now returns the one captured instance on
      every call, while the bridge's `get` keeps building new objects on
      the primary. */
  lemma ConnectTransientMismatch(b: Bridge, iface: Interface, name: Option<string>)
    requires RegistryKey(iface, name) !in b.registry
    requires var s := Adapters.SlotOf(b.primary.framework, iface, name);
             s in b.primary.container.regs && !b.primary.container.regs[s].singleton
             && b.primary.container.regs[s].provider.Construct?
    ensures var impl := Adapters.Get(b.primary, iface, name, b.next).value.inst;
            var b1 := ConnectFrameworks(b, iface, false, name, false).bridge;
            var g := Get(b1, iface, name);
            && Adapters.GetTimes(b1.secondary, iface, name, b1.next, 2) == Ok([impl, impl])
            && g.result.Ok? && g.result.value != impl
  {
    var impl := Adapters.Get(b.primary, iface, name, b.next).value.inst;
    var b1 := ConnectFrameworks(b, iface, false, name, false).bridge;
    Adapters.PinnedEveryTime(b1.secondary, iface, name, impl, b1.next, 2);
    assert seq(2, _ => impl) == [impl, impl];
    assert impl.id == b.next && b1.next == b.next + 1;
    assert Get(b1, iface, name).result.value.id == b.next + 1;
  }

  /** After `integrate_dependency` returns `(p, s)`, the bridge's `get`
      answers `p` for the primary interface and `s` for the secondary one,
      from the registry; when the two interfaces coincide `s` wins. */
  lemma IntegrateThenGet(b: Bridge, iface: Interface, secondaryIface: Interface, name: Option<string>)
    requires IntegrateDependency(b, iface, secondaryIface, name).result.Ok?
    ensures var r := IntegrateDependency(b, iface, secondaryIface, name);
            var (p, s) := r.result.value;
            && Get(r.bridge, secondaryIface, name) == Step(r.bridge, Ok(s))
            && Get(r.bridge, iface, name) == Step(r.bridge, Ok(if iface == secondaryIface then s else p))
  {
  }

  /** Registry entries can be replaced: binding the same singleton key twice
      leaves the second instance in the registry, not the first. */
  lemma RegistryEntryCanBeReplaced()
    ensures var a := Interface("A", 0);
            var b0 := Bridge(Adapters.Adapter(Adapters.DependencyInjector, Empty), Adapters.Adapter(Adapters.Injector, Empty), map[], 0);
            var b1 := Bind(b0, a, Construct(a), true, None).bridge;
            var b2 := Bind(b1, a, Construct(a), true, None).bridge;
            && b1.registry[RegistryKey(a, None)] == Instance(0, a)
            && b2.registry[RegistryKey(a, None)] == Instance(1, a)
  {
  }

  /** End to end: a new bridge over the two supported engines, a singleton
      binding, then two `get` calls that return the same object. */
  lemma SingletonScenario()
    ensures var a := Interface("A", 0);
            var b0 := New("injector", "dependency_injector");
            && b0.Ok?
            && var b1 := Bind(b0.value, a, Construct(a), true, None).bridge;
               var g1 := Get(b1, a, None);
               var g2 := Get(g1.bridge, a, None);
               g1.result == Ok(Instance(0, a)) && g2.result == g1.result
  {
  }
}
