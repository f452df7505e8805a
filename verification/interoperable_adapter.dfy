/** `InteroperableDIAdapter`: a bridge owning a primary adapter, a secondary
    adapter and a shared registry `(interface, name) -> instance`. Every
    operation is a step from one bridge state to the next; the fresh-number
    counter `next` lives in the bridge so that instances built by either
    adapter are told apart. */
module InteroperableDIAdapter {
  import opened Values
  import opened Engine
  import opened Adapters
  import AdapterFactory

  /** The registry key is the raw `(interface, name)` pair: unlike the
      adapters' slots, `None` and `""` are different keys here. */
  datatype RegistryKey = RegistryKey(iface: Interface, name: Option<string>)

  datatype Bridge = Bridge(primary: Adapter, secondary: Adapter, registry: map<RegistryKey, Instance>, next: nat)

  /** The bridge after a step, and what the step returned or raised. A step
      that raises keeps the effects it had before the failure. */
  datatype Step<+T> = Step(bridge: Bridge, result: Result<T>)

  /** Every instance the bridge knows of was drawn below `next`, so the next
      constructed object is new. */
  ghost predicate Valid(b: Bridge)
  {
    && IdsBelow(b.primary.container, b.next)
    && IdsBelow(b.secondary.container, b.next)
    && forall k :: k in b.registry ==> b.registry[k].id < b.next
  }

  /** `__init__`: both adapters come from the factory (primary first), the
      registry starts empty. */
  function New(primaryFramework: string, secondaryFramework: string): (r: Result<Bridge>)
    ensures r.Ok? <==> AdapterFactory.FrameworkNamed(primaryFramework).Some? && AdapterFactory.FrameworkNamed(secondaryFramework).Some?
    ensures AdapterFactory.FrameworkNamed(primaryFramework).None? ==> r == Err(ValueError(primaryFramework))
    ensures AdapterFactory.FrameworkNamed(primaryFramework).Some? && AdapterFactory.FrameworkNamed(secondaryFramework).None? ==>
              r == Err(ValueError(secondaryFramework))
    ensures r.Ok? ==> && r.value.registry == map[]
                      && r.value.primary == Adapter(AdapterFactory.FrameworkNamed(primaryFramework).value, Empty)
                      && r.value.secondary == Adapter(AdapterFactory.FrameworkNamed(secondaryFramework).value, Empty)
                      && Valid(r.value)
  {
    match AdapterFactory.GetDIAdapter(primaryFramework)
    case Err(e) => Err(e)
    case Ok(p) =>
      match AdapterFactory.GetDIAdapter(secondaryFramework)
      case Err(e) => Err(e)
      case Ok(s) => Ok(Bridge(p, s, map[], 0))
  }

  /** `bind`: the same `(interface, to, is_singleton, name)` goes to both
      adapters; a singleton is then resolved on the primary at once and the
      registry keeps that instance. */
  function Bind(b: Bridge, iface: Interface, to: Provider, isSingleton: bool, name: Option<string>): (r: Step<()>)
    ensures r.result == Ok(())
    ensures r.bridge.secondary == Adapters.Bind(b.secondary, iface, to, isSingleton, name)
    ensures r.bridge.primary.framework == b.primary.framework
    ensures r.bridge.primary.container.regs == Adapters.Bind(b.primary, iface, to, isSingleton, name).container.regs
    ensures !isSingleton ==> r.bridge == b.(primary := Adapters.Bind(b.primary, iface, to, isSingleton, name),
                                           secondary := Adapters.Bind(b.secondary, iface, to, isSingleton, name))
    ensures isSingleton ==> var key := RegistryKey(iface, name);
                            && key in r.bridge.registry
                            && Yields(r.bridge.primary, iface, name, r.bridge.registry[key])
                            && r.bridge.registry - {key} == b.registry - {key}
    ensures isSingleton ==>
              var g := Adapters.Get(Adapters.Bind(b.primary, iface, to, true, name), iface, name, b.next).value;
              r.bridge.primary == g.adapter && r.bridge.next == g.next
    ensures isSingleton && to.Constant? ==> r.bridge.registry[RegistryKey(iface, name)] == to.inst
    ensures isSingleton && to.Construct? ==> r.bridge.registry[RegistryKey(iface, name)] == Instance(b.next, to.cls)
    ensures b.registry.Keys <= r.bridge.registry.Keys
    ensures Valid(b) && (to.Constant? ==> to.inst.id < b.next) ==> Valid(r.bridge)
  {
    var b1 := b.(primary := Adapters.Bind(b.primary, iface, to, isSingleton, name),
                 secondary := Adapters.Bind(b.secondary, iface, to, isSingleton, name));
    if isSingleton then
      match Adapters.Get(b1.primary, iface, name, b1.next)
      case Ok(got) =>
        Step(b1.(primary := got.adapter, next := got.next,
                    registry := b1.registry[RegistryKey(iface, name) := got.inst]), Ok(()))
      case Err(e) => Step(b1, Err(e))
    else
      Step(b1, Ok(()))
  }

  /** `get`: a registry entry wins outright; otherwise the primary answers,
      and the secondary is asked only when the primary raised
      `AttributeError`. Any other failure is passed on. */
  function Get(b: Bridge, iface: Interface, name: Option<string>): (r: Step<Instance>)
    ensures r.bridge.registry == b.registry
    ensures RegistryKey(iface, name) in b.registry ==> r == Step(b, Ok(b.registry[RegistryKey(iface, name)]))
    ensures RegistryKey(iface, name) !in b.registry ==>
              var p := Adapters.Get(b.primary, iface, name, b.next);
              && (p.Ok? ==> r == Step(b.(primary := p.value.adapter, next := p.value.next), Ok(p.value.inst)))
              && (p.Err? && !p.error.AttributeError? ==> r == Step(b, Err(p.error)))
              && (p.Err? && p.error.AttributeError? ==>
                    var s := Adapters.Get(b.secondary, iface, name, b.next);
                    && (s.Ok? ==> r == Step(b.(secondary := s.value.adapter, next := s.value.next), Ok(s.value.inst)))
                    && (s.Err? ==> r == Step(b, Err(s.error))))
    ensures Valid(b) ==> Valid(r.bridge) && (r.result.Ok? ==> r.result.value.id < r.bridge.next)
  {
    var key := RegistryKey(iface, name);
    if key in b.registry then
      Step(b, Ok(b.registry[key]))
    else
      match Adapters.Get(b.primary, iface, name, b.next)
      case Ok(p) => Step(b.(primary := p.adapter, next := p.next), Ok(p.inst))
      case Err(e) =>
        if e.AttributeError? then
          match Adapters.Get(b.secondary, iface, name, b.next)
          case Ok(s) => Step(b.(secondary := s.adapter, next := s.next), Ok(s.inst))
          case Err(e2) => Step(b, Err(e2))
        else
          Step(b, Err(e))
  }

  /** The adapter a connect reads from, and the one it binds into. */
  function Source(b: Bridge, fromSecondary: bool): Adapter
  {
    if fromSecondary then b.secondary else b.primary
  }

  function Target(b: Bridge, fromSecondary: bool): Adapter
  {
    if fromSecondary then b.primary else b.secondary
  }

  /** `connect_frameworks`: resolves on one side, then binds on the other
      side a provider returning that exact instance (with the requested
      lifetime), and records the instance in the registry only for a
      singleton. A failed resolution changes nothing. */
  function ConnectFrameworks(b: Bridge, iface: Interface, fromSecondary: bool, name: Option<string>, isSingleton: bool): (r: Step<()>)
    ensures var got := Adapters.Get(Source(b, fromSecondary), iface, name, b.next);
            && (got.Err? ==> r == Step(b, Err(got.error)))
            && (got.Ok? ==>
                  && r.result == Ok(())
                  && Source(r.bridge, fromSecondary) == got.value.adapter
                  && r.bridge.next == got.value.next
                  && Target(r.bridge, fromSecondary) == Adapters.Bind(Target(b, fromSecondary), iface, Constant(got.value.inst), isSingleton, name)
                  && Yields(Target(r.bridge, fromSecondary), iface, name, got.value.inst)
                  && (isSingleton ==> r.bridge.registry == b.registry[RegistryKey(iface, name) := got.value.inst])
                  && (!isSingleton ==> r.bridge.registry == b.registry))
    ensures b.registry.Keys <= r.bridge.registry.Keys
    ensures Valid(b) ==> Valid(r.bridge)
  {
    match Adapters.Get(Source(b, fromSecondary), iface, name, b.next)
    case Err(e) => Step(b, Err(e))
    case Ok(res) =>
      var impl := res.inst;
      var b1 :=
        if fromSecondary then
          b.(secondary := res.adapter, primary := Adapters.Bind(b.primary, iface, Constant(impl), isSingleton, name), next := res.next)
        else
          b.(primary := res.adapter, secondary := Adapters.Bind(b.secondary, iface, Constant(impl), isSingleton, name), next := res.next);
      var registry := if isSingleton then b1.registry[RegistryKey(iface, name) := impl] else b1.registry;
      Step(b1.(registry := registry), Ok(()))
  }

  /** `integrate_dependency`: resolves `interface` on the primary and
      `secondary_interface` on the secondary, records both (the second write
      wins when the keys coincide) and returns the pair. If the secondary
      fails, the primary's resolution has already happened. */
  function IntegrateDependency(b: Bridge, iface: Interface, secondaryIface: Interface, name: Option<string>): (r: Step<(Instance, Instance)>)
    ensures var p := Adapters.Get(b.primary, iface, name, b.next);
            && (p.Err? ==> r == Step(b, Err(p.error)))
            && (p.Ok? ==>
                  var s := Adapters.Get(b.secondary, secondaryIface, name, p.value.next);
                  && r.bridge.primary == p.value.adapter
                  && (s.Err? ==> r == Step(b.(primary := p.value.adapter, next := p.value.next), Err(s.error)))
                  && (s.Ok? ==>
                        && r.result == Ok((p.value.inst, s.value.inst))
                        && r.bridge.secondary == s.value.adapter
                        && r.bridge.next == s.value.next
                        && RegistryKey(iface, name) in r.bridge.registry
                        && RegistryKey(secondaryIface, name) in r.bridge.registry
                        && r.bridge.registry[RegistryKey(secondaryIface, name)] == s.value.inst
                        && (iface != secondaryIface ==> r.bridge.registry[RegistryKey(iface, name)] == p.value.inst)
                        && r.bridge.registry - {RegistryKey(iface, name), RegistryKey(secondaryIface, name)}
                           == b.registry - {RegistryKey(iface, name), RegistryKey(secondaryIface, name)}))
    ensures b.registry.Keys <= r.bridge.registry.Keys
    ensures Valid(b) ==> Valid(r.bridge)
  {
    match Adapters.Get(b.primary, iface, name, b.next)
    case Err(e) => Step(b, Err(e))
    case Ok(p) =>
      var b1 := b.(primary := p.adapter, next := p.next);
      match Adapters.Get(b1.secondary, secondaryIface, name, b1.next)
      case Err(e) => Step(b1, Err(e))
      case Ok(s) =>
        var registry := b1.registry[RegistryKey(iface, name) := p.inst][RegistryKey(secondaryIface, name) := s.inst];
        Step(b1.(secondary := s.adapter, next := s.next, registry := registry), Ok((p.inst, s.inst)))
  }
}
