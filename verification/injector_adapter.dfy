/** The adapter for the injector library. Each `bind` installs a module on
    the adapter's own `Injector`, keyed by the interface class itself when no
    name is given and by a string otherwise. */
module InjectorAdapter {
  import opened Values
  import opened Engine

  /** The binding key `bind` and `get` both use. */
  function Key(iface: Interface, name: Option<string>): Slot
  {
    if IsNamed(name) then NameSlot(Qualified(iface, name.value)) else TypeSlot(iface)
  }

  /** `bind`: binds the key to `to` with singleton scope, or with no scope,
      replacing any earlier binding of that key. */
  function Bind(c: Container, iface: Interface, to: Provider, isSingleton: bool, name: Option<string>): (r: Container)
    ensures Key(iface, name) in r.regs && r.regs[Key(iface, name)] == Registration(to, isSingleton)
    ensures Key(iface, name) !in r.cache
    ensures r.cache - {Key(iface, name)} == c.cache - {Key(iface, name)}
    ensures forall i: Interface, n: Option<string> :: Key(i, n) != Key(iface, name) ==>
              (Key(i, n) in r.regs <==> Key(i, n) in c.regs)
    ensures forall i: Interface, n: Option<string> :: Key(i, n) != Key(iface, name) && Key(i, n) in c.regs ==>
              r.regs[Key(i, n)] == c.regs[Key(i, n)]
    ensures forall next: nat :: Get(r, iface, name, next).Ok?
  {
    Register(c, Key(iface, name), Registration(to, isSingleton))
  }

  /** `get`: resolves the key through the injector. A key nothing was bound
      to fails with the engine's own error, which is never `AttributeError`. */
  function Get(c: Container, iface: Interface, name: Option<string>, next: nat): (r: Result<Produced>)
    ensures r.Ok? <==> Key(iface, name) in c.regs
    ensures r.Err? ==> r.error == Unsatisfied(Key(iface, name))
    ensures r.Ok? ==> r.value == Produce(c, Key(iface, name), next)
  {
    var key := Key(iface, name);
    if key in c.regs then Ok(Produce(c, key, next)) else Err(Unsatisfied(key))
  }

  /** Unnamed keys are classes and named keys are strings: a named binding
      never occupies an unnamed slot, and distinct classes never share an
      unnamed slot even when their `__name__` agree. */
  lemma KeyKinds(i1: Interface, n1: Option<string>, i2: Interface)
    ensures IsNamed(n1) ==> Key(i1, n1) != Key(i2, None)
    ensures Key(i1, None) == Key(i2, None) <==> i1 == i2
  {
  }

  /** An empty name takes the unnamed branch in both `bind` and `get`. */
  lemma EmptyNameIsUnnamed(c: Container, iface: Interface, to: Provider, isSingleton: bool, next: nat)
    ensures Key(iface, Some("")) == TypeSlot(iface)
    ensures Bind(c, iface, to, isSingleton, Some("")) == Bind(c, iface, to, isSingleton, None)
    ensures Get(c, iface, Some(""), next) == Get(c, iface, None, next)
  {
  }

  /** Two named keys can collide: `(A, "b_c")` and `(A_b, "c")`. */
  lemma NamedKeysCollide()
    ensures Key(Interface("A", 0), Some("b_c")) == Key(Interface("A_b", 1), Some("c"))
  {
  }

  /** For a fixed interface, distinct non-empty names give distinct keys. */
  lemma NamedKeysDistinct(iface: Interface, n1: string, n2: string)
    requires n1 != "" && n2 != "" && n1 != n2
    ensures Key(iface, Some(n1)) != Key(iface, Some(n2))
  {
    if Key(iface, Some(n1)) == Key(iface, Some(n2)) {
      QualifiedInjective(iface, n1, n2);
    }
  }
}
