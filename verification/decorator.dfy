/** The decorator value callers hold: a strategy chosen once at creation,
    and the two entry points that run a pass and differ only in what they do
    when nothing was decorated. */
module Decoration {
  import opened Services
  import opened Strategies
  import opened Rewrite
  import RewriteProperties

  datatype Decorator = Decorator(strategy: Strategy)

  /** The reflection questions strategy selection and open-generic matching
      ask of the type system: is a type an open generic definition, and is a
      candidate a closed instantiation of a given definition. */
  datatype Reflection = Reflection(
    isOpenGeneric: SvcType -> bool,
    instantiates: (SvcType, SvcType) -> bool)

  /** Selects the open-generic strategy exactly when the service type is an
      open generic definition, the closed-type strategy otherwise. */
  function Create(serviceType: SvcType, decoratorType: Option<TypeId>, decoratorFactory: Option<nat>,
                  reflection: Reflection): (d: Decorator)
    ensures d.strategy.OpenGeneric? <==> reflection.isOpenGeneric(serviceType)
    ensures d.strategy.serviceType == serviceType
    ensures d.strategy.decoration == DecoratorConfig(decoratorType, decoratorFactory)
    ensures forall t :: CanDecorate(d.strategy, t) ==
                        (if reflection.isOpenGeneric(serviceType) then reflection.instantiates(t, serviceType)
                         else t == serviceType)
  {
    var decoration := DecoratorConfig(decoratorType, decoratorFactory);
    if reflection.isOpenGeneric(serviceType) then
      Decorator(OpenGeneric(serviceType, decoration, t => reflection.instantiates(t, serviceType)))
    else
      Decorator(ClosedType(serviceType, decoration))
  }

  /** The generic overload: the service type is a type argument, and the
      closed-type strategy is used whatever it is. */
  function CreateFor(serviceType: SvcType, decoratorType: Option<TypeId>, decoratorFactory: Option<nat>): (d: Decorator)
    ensures d.strategy.ClosedType?
    ensures d.strategy.serviceType == serviceType
    ensures d.strategy.decoration == DecoratorConfig(decoratorType, decoratorFactory)
    ensures forall t :: CanDecorate(d.strategy, t) <==> t == serviceType
  {
    Decorator(ClosedType(serviceType, DecoratorConfig(decoratorType, decoratorFactory)))
  }

  /** Best-effort decoration: reports whether anything was decorated. A
      malformed registration still surfaces as an error, with the registry as
      the pass left it. */
  method TryDecorate(d: Decorator, services: seq<Descriptor>, seed: nat)
    returns (after: seq<Descriptor>, r: Result<bool>)
    ensures after == DecorateSpec(d.strategy, services, seed).services
    ensures r.Err? <==> HasMalformed(d.strategy, services)
    ensures r.Err? ==> r.error.MalformedRegistration?
    ensures r.Ok? ==> (r.value <==> CountEligible(d.strategy, services) != 0)
    ensures r.Ok? ==> |after| == |services| + CountEligible(d.strategy, services)
    ensures r == Ok(false) ==> after == services
  {
    var pass, _, _ := DecorateServices(d.strategy, services, seed);
    after := pass.services;
    if pass.Aborted? {
      return after, Err(pass.error);
    }
    if pass.count == 0 {
      RewriteProperties.NoMatchLeavesUnchanged(d.strategy, services, seed);
    }
    r := Ok(pass.count != 0);
  }

  /** Required decoration: fails with a missing-registration error naming the
      strategy's service type when nothing was decorated, and otherwise
      returns the rewritten registry itself. */
  method Decorate(d: Decorator, services: seq<Descriptor>, seed: nat)
    returns (after: seq<Descriptor>, r: Result<seq<Descriptor>>)
    ensures after == DecorateSpec(d.strategy, services, seed).services
    ensures r == Err(MissingTypeRegistration(d.strategy.serviceType)) <==>
      !HasMalformed(d.strategy, services) && CountEligible(d.strategy, services) == 0
    ensures r.Err? && r.error.MissingTypeRegistration? ==> after == services
    ensures r.Err? && r.error.MalformedRegistration? <==> HasMalformed(d.strategy, services)
    ensures r.Ok? ==> r.value == after && |after| == |services| + CountEligible(d.strategy, services)
    ensures r.Ok? ==> CountEligible(d.strategy, services) != 0
  {
    var pass, _, _ := DecorateServices(d.strategy, services, seed);
    after := pass.services;
    if pass.Aborted? {
      return after, Err(pass.error);
    }
    if pass.count == 0 {
      RewriteProperties.NoMatchLeavesUnchanged(d.strategy, services, seed);
      return after, Err(MissingTypeRegistration(d.strategy.serviceType));
    }
    r := Ok(after);
  }
}
