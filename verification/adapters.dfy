/** The uniform adapter contract (`bind` and `get`) over the closed set of
    supported engines. An adapter is its framework plus its own engine
    table; the framework decides how `(interface, name)` becomes a slot and
    which error an unbound slot raises. */
module Adapters {
  import opened Values
  import opened Engine
  import DependencyInjectorAdapter
  import InjectorAdapter

  datatype Framework = Injector | DependencyInjector

  datatype Adapter = Adapter(framework: Framework, container: Container)

  /** What one `get` yields: the instance, the adapter afterwards and the
      fresh-number counter afterwards. */
  datatype Resolved = Resolved(inst: Instance, adapter: Adapter, next: nat)

  function SlotOf(framework: Framework, iface: Interface, name: Option<string>): Slot
  {
    match framework
    case Injector => InjectorAdapter.Key(iface, name)
    case DependencyInjector => DependencyInjectorAdapter.SlotOf(iface, name)
  }

  /** From now on, every `get` of `(iface, name)` on `a` returns `x`. */
  ghost predicate Yields(a: Adapter, iface: Interface, name: Option<string>, x: Instance)
  {
    Pinned(a.container, SlotOf(a.framework, iface, name), x)
  }

  function Bind(a: Adapter, iface: Interface, to: Provider, isSingleton: bool, name: Option<string>): (r: Adapter)
    ensures r.framework == a.framework
    ensures var s := SlotOf(a.framework, iface, name);
            && s in r.container.regs && r.container.regs[s] == Registration(to, isSingleton)
            && s !in r.container.cache
    ensures forall s :: s != SlotOf(a.framework, iface, name) && s in a.container.regs ==>
              s in r.container.regs && r.container.regs[s] == a.container.regs[s]
    ensures forall s :: s != SlotOf(a.framework, iface, name) && s !in a.container.regs ==> s !in r.container.regs
    ensures r.container.cache - {SlotOf(a.framework, iface, name)} == a.container.cache - {SlotOf(a.framework, iface, name)}
    ensures forall n: nat :: IdsBelow(a.container, n) && (to.Constant? ==> to.inst.id < n) ==> IdsBelow(r.container, n)
  {
    match a.framework
    case Injector => Adapter(Injector, InjectorAdapter.Bind(a.container, iface, to, isSingleton, name))
    case DependencyInjector => Adapter(DependencyInjector, DependencyInjectorAdapter.Bind(a.container, iface, to, isSingleton, name))
  }

  /** Only the dependency-injector adapter reports an unbound slot as
      `AttributeError`; the injector engine fails with its own error. */
  function Get(a: Adapter, iface: Interface, name: Option<string>, next: nat): (r: Result<Resolved>)
    ensures r.Ok? <==> SlotOf(a.framework, iface, name) in a.container.regs
    ensures r.Err? ==> (r.error.AttributeError? <==> a.framework == DependencyInjector)
    ensures r.Ok? ==> var p := Produce(a.container, SlotOf(a.framework, iface, name), next);
                      r.value == Resolved(p.inst, Adapter(a.framework, p.container), p.next)
  {
    var got := match a.framework
      case Injector => InjectorAdapter.Get(a.container, iface, name, next)
      case DependencyInjector => DependencyInjectorAdapter.Get(a.container, iface, name, next);
    match got
    case Ok(p) => Ok(Resolved(p.inst, Adapter(a.framework, p.container), p.next))
    case Err(e) => Err(e)
  }

  /** `k` successive `get` calls of `(iface, name)`, threading the adapter
      and the counter; the first failure stops the run. */
  function GetTimes(a: Adapter, iface: Interface, name: Option<string>, next: nat, k: nat): (r: Result<seq<Instance>>)
    ensures r.Ok? <==> k == 0 || SlotOf(a.framework, iface, name) in a.container.regs
    ensures r.Ok? ==> |r.value| == k
    decreases k
  {
    if k == 0 then Ok([])
    else
      match Get(a, iface, name, next)
      case Err(e) => Err(e)
      case Ok(res) =>
        match GetTimes(res.adapter, iface, name, res.next, k - 1)
        case Err(e) => Err(e)
        case Ok(rest) => Ok([res.inst] + rest)
  }

  /** A pinned key hands out the same instance on every one of `k` calls. */
  lemma {:induction false} PinnedEveryTime(a: Adapter, iface: Interface, name: Option<string>, x: Instance, next: nat, k: nat)
    requires Yields(a, iface, name, x)
    ensures GetTimes(a, iface, name, next, k) == Ok(seq(k, _ => x))
    decreases k
  {
    if k > 0 {
      var res := Get(a, iface, name, next).value;
      assert Yields(res.adapter, iface, name, x) && res.inst == x;
      PinnedEveryTime(res.adapter, iface, name, x, res.next, k - 1);
      assert [x] + seq(k - 1, _ => x) == seq(k, _ => x);
    } else {
      assert seq(k, _ => x) == [];
    }
  }

  /** Singleton lifetime: the first `get` pins the slot, so every `get`
      returns the same instance. */
  lemma SingletonSameInstance(a: Adapter, iface: Interface, name: Option<string>, next: nat, k: nat)
    requires var s := SlotOf(a.framework, iface, name); s in a.container.regs && a.container.regs[s].singleton
    ensures var r := GetTimes(a, iface, name, next, k);
            r.Ok? && forall j :: 0 <= j < k ==> r.value[j] == r.value[0]
  {
    if k > 0 {
      var res := Get(a, iface, name, next).value;
      PinnedEveryTime(res.adapter, iface, name, res.inst, res.next, k - 1);
    }
  }

  /** Transient lifetime over a class: every `get` constructs a new object,
      drawing consecutive fresh numbers, so the `k` instances are pairwise
      distinct. */
  lemma {:induction false} TransientFreshEveryTime(a: Adapter, iface: Interface, name: Option<string>, next: nat, k: nat)
    requires var s := SlotOf(a.framework, iface, name);
             s in a.container.regs && !a.container.regs[s].singleton && a.container.regs[s].provider.Construct?
    ensures var r := GetTimes(a, iface, name, next, k);
            var cls := a.container.regs[SlotOf(a.framework, iface, name)].provider.cls;
            r.Ok? && forall j :: 0 <= j < k ==> r.value[j] == Instance(next + j, cls)
    decreases k
  {
    if k > 0 {
      var res := Get(a, iface, name, next).value;
      assert res.adapter == a && res.next == next + 1;
      TransientFreshEveryTime(a, iface, name, next + 1, k - 1);
    }
  }

  /** Consequence of the above: two transient instances are never the same object. */
  lemma TransientDistinct(a: Adapter, iface: Interface, name: Option<string>, next: nat, k: nat, i: nat, j: nat)
    requires var s := SlotOf(a.framework, iface, name);
             s in a.container.regs && !a.container.regs[s].singleton && a.container.regs[s].provider.Construct?
    requires i < j < k
    ensures var r := GetTimes(a, iface, name, next, k); r.Ok? && r.value[i] != r.value[j]
  {
    TransientFreshEveryTime(a, iface, name, next, k);
  }

  /** Two names of one interface share a slot only when both are the same
      non-empty name: a named slot never meets the unnamed one. */
  lemma NamedSlotShared(framework: Framework, iface: Interface, q: string, other: Option<string>)
    requires q != ""
    ensures SlotOf(framework, iface, Some(q)) == SlotOf(framework, iface, other) ==> IsNamed(other) && other.value == q
  {
    if IsNamed(other) {
      if SlotOf(framework, iface, Some(q)) == SlotOf(framework, iface, other) {
        QualifiedInjective(iface, q, other.value);
      }
    } else {
      assert |Qualified(iface, q)| > |iface.name|;
    }
  }

  /** Binding `(iface, q)` leaves the resolution of `(iface, None)` and of
      `(iface, q2)` for every other name `q2` as it was: names partition the
      slots of one interface. */
  lemma QualifiersPartition(a: Adapter, iface: Interface, to: Provider, isSingleton: bool, q: string, other: Option<string>, next: nat)
    requires q != ""
    requires !(IsNamed(other) && other.value == q)
    ensures var before := Get(a, iface, other, next);
            var after := Get(Bind(a, iface, to, isSingleton, Some(q)), iface, other, next);
            after.Ok? == before.Ok? && (after.Ok? ==> after.value.inst == before.value.inst)
  {
    NamedSlotShared(a.framework, iface, q, other);
  }

  /** Binding one slot leaves every other slot's pinned instance in place. */
  lemma BindKeepsOtherYields(a: Adapter, iface: Interface, to: Provider, isSingleton: bool, name: Option<string>,
                             other: Interface, otherName: Option<string>, x: Instance)
    requires SlotOf(a.framework, other, otherName) != SlotOf(a.framework, iface, name)
    requires Yields(a, other, otherName, x)
    ensures Yields(Bind(a, iface, to, isSingleton, name), other, otherName, x)
  {
  }
}
