/** The two decorator strategies: which registrations a strategy matches and
    which recipe it produces for a matched registration. */
module Strategies {
  import opened Services

  /** A closed-type strategy matches its service type exactly; an open-generic
      strategy matches every closed instantiation of its generic definition,
      a reflection question kept abstract as `instantiates`. */
  datatype Strategy =
    | ClosedType(serviceType: SvcType, decoration: DecoratorConfig)
    | OpenGeneric(serviceType: SvcType, decoration: DecoratorConfig, instantiates: SvcType -> bool)

  predicate CanDecorate(s: Strategy, candidate: SvcType)
  {
    match s
    case ClosedType(target, _) => candidate == target
    case OpenGeneric(_, _, instantiates) => instantiates(candidate)
  }

  /** The decorator's factory for a registration aliased under `marker`. For an
      open-generic strategy the decorator is closed over the type arguments of
      `marker.orig`, so the marker determines it. */
  function CreateDecorator(s: Strategy, marker: SvcType): FactoryFn
  {
    Decorating(s.decoration, marker)
  }
}
