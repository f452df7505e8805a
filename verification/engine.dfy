/** The part of an injection engine the adapters rely on: a table of
    registrations, each a provider with a lifetime, and a per-slot cache of
    singleton instances. The dependency-injector `DynamicContainer` and the
    injector `Injector` are both modelled by this one table; the adapters
    differ in how they turn `(interface, name)` into a slot. */
module Engine {
  import opened Values

  /** What the `to` argument of `bind` becomes: a class the engine
      instantiates, or a closure `lambda: implementation` that returns one
      captured instance. */
  datatype Provider = Construct(cls: Interface) | Constant(inst: Instance)

  /** A provider with its lifetime: singleton, or a new call per resolution. */
  datatype Registration = Registration(provider: Provider, singleton: bool)

  datatype Container = Container(regs: map<Slot, Registration>, cache: map<Slot, Instance>)

  /** What one resolution yields: the instance, the engine afterwards and the
      fresh-number counter afterwards. */
  datatype Produced = Produced(inst: Instance, container: Container, next: nat)

  const Empty := Container(map[], map[])

  /** From now on, every resolution of slot `s` hands out `x`. */
  ghost predicate Pinned(c: Container, s: Slot, x: Instance)
  {
    && s in c.regs
    && (|| (c.regs[s].singleton && s in c.cache && c.cache[s] == x)
        || (c.regs[s].provider == Constant(x) && (s in c.cache ==> c.cache[s] == x)))
  }

  /** Every instance the engine holds was drawn from the counter below `n`. */
  ghost predicate IdsBelow(c: Container, n: nat)
  {
    && (forall s :: s in c.cache ==> c.cache[s].id < n)
    && (forall s :: s in c.regs && c.regs[s].provider.Constant? ==> c.regs[s].provider.inst.id < n)
  }

  /** Stores a registration under `s`. A new provider object replaces the old
      one, so no instance is cached for `s` any more. */
  function Register(c: Container, s: Slot, reg: Registration): (r: Container)
    ensures s in r.regs && r.regs[s] == reg
    ensures s !in r.cache
    ensures forall t :: t != s ==> (t in r.regs <==> t in c.regs)
    ensures forall t :: t != s && t in c.regs ==> r.regs[t] == c.regs[t]
    ensures r.cache - {s} == c.cache - {s}
    ensures forall n: nat :: IdsBelow(c, n) && (reg.provider.Constant? ==> reg.provider.inst.id < n) ==> IdsBelow(r, n)
  {
    Container(c.regs[s := reg], c.cache - {s})
  }

  /** Calls a provider once: a class yields a new object with the next
      fresh number, a closure yields its captured instance. */
  function Make(p: Provider, next: nat): (Instance, nat)
  {
    match p
    case Construct(cls) => (Instance(next, cls), next + 1)
    case Constant(x) => (x, next)
  }

  /** Resolves slot `s`: a singleton slot returns its cached instance, and
      otherwise the provider is called (and its result cached when the
      lifetime is singleton). */
  function Produce(c: Container, s: Slot, next: nat): (p: Produced)
    requires s in c.regs
    ensures p.container.regs == c.regs
    ensures p.container.cache - {s} == c.cache - {s}
    ensures p.next >= next
    ensures c.regs[s].singleton ==> Pinned(p.container, s, p.inst)
    ensures forall x :: Pinned(c, s, x) ==> p.inst == x && p.next == next && Pinned(p.container, s, x)
    ensures !c.regs[s].singleton ==> p.container == c
    ensures c.regs[s].provider.Construct? && !(c.regs[s].singleton && s in c.cache) ==>
              p.inst == Instance(next, c.regs[s].provider.cls) && p.next == next + 1
    ensures IdsBelow(c, next) ==> IdsBelow(p.container, p.next) && p.inst.id < p.next
  {
    var reg := c.regs[s];
    if reg.singleton && s in c.cache then
      Produced(c.cache[s], c, next)
    else
      var made := Make(reg.provider, next);
      var cache := if reg.singleton then c.cache[s := made.0] else c.cache;
      Produced(made.0, Container(c.regs, cache), made.1)
  }
}
