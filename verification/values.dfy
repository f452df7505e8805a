/** Values shared by every part of the dependency-injection model: service
    types, the instances engines build, engine slots, and the errors the
    adapters and the factory raise. */
module Values {

  datatype Option<+T> = None | Some(value: T)

  /** A Python class, used as a service interface or as an implementation.
      `name` is its `__name__`; `tag` tells apart two distinct classes that
      happen to share a name, so `==` on `Interface` is class identity. */
  datatype Interface = Interface(name: string, tag: nat)

  /** An object an engine built. `id` is drawn from a fresh-number counter,
      so two instances are the same Python object exactly when they are `==`. */
  datatype Instance = Instance(id: nat, cls: Interface)

  /** The key under which an engine files a registration: a class object
      (used by the injector engine for unnamed bindings) or a string. */
  datatype Slot = TypeSlot(iface: Interface) | NameSlot(attr: string)

  datatype Error =
    | AttributeError(attribute: string)  // dependency-injector adapter: no provider under this attribute
    | Unsatisfied(key: Slot)             // injector engine: the key cannot be resolved
    | ValueError(framework: string)      // factory: the framework name is not supported

  datatype Result<+T> = Ok(value: T) | Err(error: Error)

  /** Python truthiness of an optional `name` argument: `None` and `""` are both falsy. */
  predicate IsNamed(name: Option<string>)
  {
    name.Some? && name.value != ""
  }

  /** The string both adapters build for a named binding: the interface's
      `__name__`, an underscore, then the name. */
  function Qualified(iface: Interface, name: string): string
  {
    iface.name + "_" + name
  }

  /** For one interface, distinct names give distinct qualified strings. */
  lemma QualifiedInjective(iface: Interface, n1: string, n2: string)
    requires Qualified(iface, n1) == Qualified(iface, n2)
    ensures n1 == n2
  {
    var k := |iface.name| + 1;
    assert Qualified(iface, n1)[k..] == n1;
    assert Qualified(iface, n2)[k..] == n2;
  }
}
