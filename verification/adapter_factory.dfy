/** `DIAdapterFactory.get_di_adapter`: picks an adapter by the exact
    framework name and builds it with an empty engine table. */
module AdapterFactory {
  import opened Values
  import opened Engine
  import opened Adapters

  /** The framework a name selects, if any; matching is exact string equality. */
  function FrameworkNamed(name: string): Option<Framework>
  {
    if name == "injector" then Some(Injector)
    else if name == "dependency_injector" then Some(DependencyInjector)
    else None
  }

  function GetDIAdapter(name: string): (r: Result<Adapter>)
    ensures r.Ok? <==> FrameworkNamed(name).Some?
    ensures r.Ok? ==> r.value == Adapter(FrameworkNamed(name).value, Empty)
    ensures r.Err? ==> r.error == ValueError(name)
  {
    if name == "injector" then Ok(Adapter(Injector, Empty))
    else if name == "dependency_injector" then Ok(Adapter(DependencyInjector, Empty))
    else Err(ValueError(name))
  }

  /** The two supported names select their adapters; the adapters that are
      not wired into the factory and any differently cased name are refused. */
  lemma SupportedNames()
    ensures GetDIAdapter("injector") == Ok(Adapter(Injector, Empty))
    ensures GetDIAdapter("dependency_injector") == Ok(Adapter(DependencyInjector, Empty))
    ensures GetDIAdapter("pinject") == Err(ValueError("pinject"))
    ensures GetDIAdapter("wired") == Err(ValueError("wired"))
    ensures GetDIAdapter("Injector") == Err(ValueError("Injector"))
  {
  }

  /** Every adapter the factory builds starts with no bindings, so nothing
      resolves through it until something is bound on that very adapter. */
  lemma FreshAdapterResolvesNothing(name: string, iface: Interface, n: Option<string>, next: nat)
    requires GetDIAdapter(name).Ok?
    ensures Get(GetDIAdapter(name).value, iface, n, next).Err?
  {
  }
}
