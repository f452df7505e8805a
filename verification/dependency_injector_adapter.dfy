/** The adapter for the dependency-injector library. It stores each provider
    as an attribute of a `DynamicContainer`, named after the interface's
    `__name__` and, when given, the binding name. */
module DependencyInjectorAdapter {
  import opened Values
  import opened Engine

  /** The attribute name `bind` and `get` both compute. */
  function AttributeName(iface: Interface, name: Option<string>): string
  {
    if IsNamed(name) then Qualified(iface, name.value) else iface.name
  }

  function SlotOf(iface: Interface, name: Option<string>): Slot
  {
    NameSlot(AttributeName(iface, name))
  }

  /** `bind`: a `providers.Singleton(to)` or `providers.Factory(to)` set as
      the attribute, replacing whatever that attribute held before. */
  function Bind(c: Container, iface: Interface, to: Provider, isSingleton: bool, name: Option<string>): (r: Container)
    ensures SlotOf(iface, name) in r.regs && r.regs[SlotOf(iface, name)] == Registration(to, isSingleton)
    ensures SlotOf(iface, name) !in r.cache
    ensures r.cache - {SlotOf(iface, name)} == c.cache - {SlotOf(iface, name)}
    ensures forall i: Interface, n: Option<string> :: AttributeName(i, n) != AttributeName(iface, name) ==>
              (SlotOf(i, n) in r.regs <==> SlotOf(i, n) in c.regs)
    ensures forall i: Interface, n: Option<string> :: AttributeName(i, n) != AttributeName(iface, name) && SlotOf(i, n) in c.regs ==>
              r.regs[SlotOf(i, n)] == c.regs[SlotOf(i, n)]
    ensures forall next: nat :: Get(r, iface, name, next).Ok?
  {
    Register(c, SlotOf(iface, name), Registration(to, isSingleton))
  }

  /** `get`: looks the attribute up and calls its provider, or raises
      `AttributeError` naming the attribute when nothing was bound there. */
  function Get(c: Container, iface: Interface, name: Option<string>, next: nat): (r: Result<Produced>)
    ensures r.Ok? <==> SlotOf(iface, name) in c.regs
    ensures r.Err? ==> r.error == AttributeError(AttributeName(iface, name))
    ensures r.Ok? ==> r.value == Produce(c, SlotOf(iface, name), next)
  {
    var slot := SlotOf(iface, name);
    if slot in c.regs then Ok(Produce(c, slot, next)) else Err(AttributeError(slot.attr))
  }

  /** An empty name takes the unnamed branch in both `bind` and `get`. */
  lemma EmptyNameIsUnnamed(c: Container, iface: Interface, to: Provider, isSingleton: bool, next: nat)
    ensures Bind(c, iface, to, isSingleton, Some("")) == Bind(c, iface, to, isSingleton, None)
    ensures Get(c, iface, Some(""), next) == Get(c, iface, None, next)
  {
  }

  /** Attribute naming is not injective: `(A, "b")` and the distinct class
      `A_b` without a name land on the same attribute, so binding one
      overwrites the other. */
  lemma NamedCollidesWithUnnamed(c: Container, to1: Provider, to2: Provider, next: nat)
    ensures var a := Interface("A", 0);
            var ab := Interface("A_b", 1);
            && a != ab
            && AttributeName(a, Some("b")) == AttributeName(ab, None)
            && Bind(c, ab, to2, false, None).regs[SlotOf(a, Some("b"))] == Registration(to2, false)
  {
  }

  /** Two distinct classes with the same `__name__` share the unnamed slot. */
  lemma SameNamedClassesShareSlot(i1: Interface, i2: Interface, name: Option<string>)
    requires i1.name == i2.name
    ensures SlotOf(i1, name) == SlotOf(i2, name)
  {
  }

  /** For a fixed interface, distinct non-empty names give distinct slots. */
  lemma NamedSlotsDistinct(iface: Interface, n1: string, n2: string)
    requires n1 != "" && n2 != "" && n1 != n2
    ensures SlotOf(iface, Some(n1)) != SlotOf(iface, Some(n2))
  {
    if SlotOf(iface, Some(n1)) == SlotOf(iface, Some(n2)) {
      QualifiedInjective(iface, n1, n2);
    }
  }
}
