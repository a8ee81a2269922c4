/** The slice of a dependency-injection registry that the decoration engine
    sees: service types (including the decorated-type marker), construction
    recipes, lifetimes and the registration record itself, plus the error
    values the engine reports instead of throwing. */
module Services {

  /** Identity of a CLR type that is not a marker (an implementation or
      decorator type, or a plain service type). */
  type TypeId = nat

  datatype Option<+T> = None | Some(value: T)

  /** A service type. `Marker` is the decorated-type wrapper: it remembers the
      type it hides and carries a nonce standing for object identity, so two
      markers over the same type built by two allocations are different. */
  datatype SvcType =
    | Plain(id: TypeId)
    | Marker(orig: SvcType, nonce: nat)

  datatype Lifetime = Singleton | Scoped | Transient

  /** What a decorator strategy was configured with: a decorator type, a
      decorator factory, or (as the caller passed them) both or neither. */
  datatype DecoratorConfig = DecoratorConfig(decoratorType: Option<TypeId>, decoratorFactory: Option<nat>)

  /** A factory delegate stored in a registration: either one the user
      registered, or the one a strategy builds, which resolves the original
      through `marker` and wraps it according to `decoration`. */
  datatype FactoryFn =
    | UserFactory(id: nat)
    | Decorating(decoration: DecoratorConfig, marker: SvcType)

  /** The construction recipe of a registration. A registration populates at
      most one of type, factory or instance, never two; `NoRecipe` is the
      malformed registration with none of them. */
  datatype Recipe =
    | ImplType(implType: TypeId)
    | Factory(factory: FactoryFn)
    | Instance(instance: nat)
    | NoRecipe

  datatype Descriptor = Descriptor(serviceType: SvcType, recipe: Recipe, lifetime: Lifetime)

  /** The registration constructor that takes a service type and a ready
      instance and no lifetime: such a registration is always a singleton. */
  function InstanceDescriptor(serviceType: SvcType, instance: nat): (d: Descriptor)
  {
    Descriptor(serviceType, Instance(instance), Singleton)
  }

  datatype Error =
    | MissingTypeRegistration(serviceType: SvcType)
    | MalformedRegistration(serviceType: SvcType)

  datatype Result<+T> = Ok(value: T) | Err(error: Error)
}
