# Scrutor service decoration, modelled in Dafny

Scrutor adds decoration to a Microsoft.Extensions.DependencyInjection service
collection. To decorate a service type means this: every existing registration
of that type is rewritten so that resolving the type yields a decorator that
wraps the original implementation. The original stays reachable under a private
alias, the *decorated type*. This project models the engine in
`src/Scrutor/Decoration/Decorator.cs` and proves properties about it.

The engine has three parts:

- Strategy selection (`Create`).
- One rewrite pass over the registry (`DecorateServices`). It scans the
  registrations present at the start, from last to first. For each one that is
  not already a decorated type and that the strategy accepts, it appends an
  alias of the registration under a fresh decorated type. It then overwrites the
  registration in place with the decorator's factory.
- Two failure policies on top of the pass's count (`TryDecorate`, `Decorate`).

Modules:

- `Services` (services.dfy): the registration record, `Descriptor`. Service
  types are either `Plain` or a `Marker` (the decorated type). A marker carries
  a nonce that stands for the identity of a freshly allocated object. A recipe
  is an implementation type, a factory, an instance, or `NoRecipe` for a
  registration with none of the three. Also the `Result`/`Error` values that
  replace exceptions.
- `Strategies` (strategies.dfy): the closed-type and open-generic strategies,
  with `CanDecorate` and `CreateDecorator`.
- `Rewrite` (rewrite.dfy): the pass in two forms.
  - `Scan`/`DecorateSpec` is a pure function that mirrors the loop.
  - `DecorateServices` is the imperative loop over a sequence, proved equal to
    `DecorateSpec`; its body is `VisitEntry`, one iteration.
  - `Processed` and `PassMeaning` give the pass's closed form in terms of the
    original registry. `ScanMeaning` proves that the pass reaches that form.
- `RewriteProperties` (rewrite_properties.dfy): per-entry facts, alias order,
  marker freshness, the no-match case, and what a second pass does.
- `Decoration` (decorator.dfy): the `Decorator` value, `Create`, `CreateFor`
  (the generic overload `Create<TService>`), `TryDecorate` and `Decorate`.

Modelling choices:

- Allocation of `new DecoratedType(...)` becomes a nonce supply. The k-th
  rewrite of a pass (counted from 0) uses nonce `seed + k`. The caller passes
  `seed`. In C# every marker is a new object, but here a marker is new only
  when `seed` is above every nonce already in the registry, which is the
  hypothesis of `MarkersAreFresh`; `TryDecorate` and `Decorate` accept any
  `seed` and leave choosing it to the caller.
- Exceptions become values. A pass ends as `Completed(services, count)` or as
  `Aborted(services, failedAt, error)`. `Aborted` carries the registry as it
  stood when the exception was thrown: in the source the collection has already
  been mutated for the higher indices by then.
- A C# registration populates at most one of type, factory and instance, never
  two; a registration with none of them takes the source's error branch and is
  `NoRecipe` here. The model therefore uses a sum type for the recipe, so the
  order of the source's null checks (type, then factory, then instance) cannot
  be observed.
- The `ServiceDescriptor(Type, object)` constructor used for an instance alias
  takes no lifetime. It always produces a singleton, and `InstanceDescriptor`
  models that.

## Model

| member | source | states |
|---|---|---|
| Rewrite.Eligible | src/Scrutor/Decoration/Decorator.cs:58-59 | A registration is matched exactly when it is not already decorated and the strategy accepts its service type. `RewriteProperties.DecoratedEntry` and `RewriteProperties.SkippedEntryUnchanged` state what a completed pass leaves at a matched and at an unmatched index. |
| Rewrite.Scan | src/Scrutor/Decoration/Decorator.cs:54-74 | The loop as a pure function. From index i down, each matched registration is aliased under a marker with nonce seed + count and then replaced, and the count grows by one. Other registrations are passed over. The first matched registration without a recipe ends the scan with an error that names its service type. `Rewrite.ScanMeaning` relates it to the closed form, and `Rewrite.DecorateServices` shows that the loop computes it. |
| Rewrite.CreateDecoratedServiceDescriptor | src/Scrutor/Decoration/Decorator.cs:81-87 | The alias is registered under the marker with the original recipe. It keeps the lifetime for type and factory recipes and is a singleton for an instance recipe. It is an argument error exactly when the registration has no recipe. |
| Rewrite.IsNotAlreadyDecorated | src/Scrutor/Decoration/Decorator.cs:79 | A registration counts as already decorated exactly when its service type is a decorated-type marker. Its partner is `RewriteProperties.AliasNeverRematched`. |
| Rewrite.Replacement | src/Scrutor/Decoration/Decorator.cs:70 | The replacing registration keeps the service type and lifetime, and its recipe is a factory: the strategy's decorator factory for the marker. |
| RewriteProperties.ReplacementStillEligible | src/Scrutor/Decoration/Decorator.cs:70 | The replacing registration is eligible exactly when the registration it replaces was, so a later pass with the same strategy matches it again. |
| Rewrite.VisitEntry | src/Scrutor/Decoration/Decorator.cs:56-73 | One loop iteration leaves entries below i-1 alone and advances the pure pass by one index. It counts one more rewrite exactly when the entry is eligible, and the list grows by that many entries. It fails exactly on an eligible entry without a recipe, and then yields the error at which the pure pass aborts. |
| Rewrite.DecorateServices | src/Scrutor/Decoration/Decorator.cs:50-77 | The reverse loop computes exactly the pure pass `DecorateSpec`. It reads indices n-1 down to 0 of the original registry, or down to the failing index when it aborts, and nothing else, each once, and finds the original registration at each; appended entries are never read. It completes exactly when no matched registration lacks a recipe. Its result satisfies `PassMeaning`: the closed form with count = number of eligible entries, or an abort at the highest malformed match with every higher match already rewritten. |
| Rewrite.RewriteStep | src/Scrutor/Decoration/Decorator.cs:61-72 | Appending the alias and overwriting index i-1 with the decorator's factory extends the closed form by one index. The new alias lands at the end of the current list. |
| Rewrite.SkipStep | src/Scrutor/Decoration/Decorator.cs:56-59 | A registration that is already a marker, or that the strategy rejects, is passed over, and the closed form extends by one index. |
| Rewrite.ScanMeaning | src/Scrutor/Decoration/Decorator.cs:54-74 | From any intermediate state, the rest of the loop ends in the closed form for the whole registry, or it stops at the highest eligible registration without a recipe. |
| Rewrite.PassFacts | src/Scrutor/Decoration/Decorator.cs:50-77 | Every pass over a registry satisfies `PassMeaning`. Completion is equivalent to having no malformed eligible registration. |
| RewriteProperties.DecoratedEntry | src/Scrutor/Decoration/Decorator.cs:61-70 | A rewritten registration keeps its service type and lifetime, and its recipe becomes the decorator factory for its own marker. That marker wraps the original service type. The marker's alias sits in the appended tail and carries the original recipe. |
| RewriteProperties.SkippedEntryUnchanged | src/Scrutor/Decoration/Decorator.cs:58-59 | A marker registration, or one the strategy rejects, is unchanged at its index whether the pass completes or aborts. |
| RewriteProperties.NoMatchLeavesUnchanged | src/Scrutor/Decoration/Decorator.cs:52-76 | When no registration is eligible, the pass returns count 0 and the registry unchanged. |
| RewriteProperties.AliasNeverRematched | src/Scrutor/Decoration/Decorator.cs:79 | An alias built under a marker is already decorated, so no strategy matches it in this pass or any later one. |
| RewriteProperties.HigherIndexAliasedFirst | src/Scrutor/Decoration/Decorator.cs:54-67 | Of two matched registrations, the one at the higher index has the smaller rank, so it is rewritten first. When the pass completes, its alias sits at a lower position in the appended tail than the alias of the other, each registered under its own marker. |
| RewriteProperties.MarkersAreFresh | src/Scrutor/Decoration/Decorator.cs:61 | Markers allocated in one pass are pairwise distinct. When the nonce supply starts above every nonce already present, no marker equals a service type registered before the pass. |
| RewriteProperties.RedecorationStacks | src/Scrutor/Decoration/Decorator.cs:54-79 | A second pass with the same strategy over a completed pass's result also completes. It rewrites the same number of registrations again and leaves the length at original + 2·count, so decoration is not idempotent. |
| RewriteProperties.RedecorationWraps | src/Scrutor/Decoration/Decorator.cs:61-70 | For each registration decorated by both passes, the second pass's alias under the second marker carries the first decorator's factory. The registration itself builds the second decorator through the second marker, which wraps the original service type. When the second pass's nonce supply starts past the nonces the first pass used, the two markers differ, so the second decorator wraps the first. |
| RewriteProperties.SingleRegistrationScenario | src/Scrutor/Decoration/Decorator.cs:54-74 | A single registration by implementation type becomes two registrations: the decorator's factory under the service type, and the original type under the fresh marker. |
| Decoration.Create | src/Scrutor/Decoration/Decorator.cs:13-27 | The open-generic strategy is chosen exactly when the service type is an open generic definition. The strategy keeps the service type and the decorator configuration, and its match predicate is the one that variant uses. |
| Decoration.CreateFor | src/Scrutor/Decoration/Decorator.cs:29-30 | The generic overload always chooses the closed-type strategy, which matches exactly its service type. |
| Decoration.TryDecorate | src/Scrutor/Decoration/Decorator.cs:32-36 | The result is true exactly when the count is nonzero. When it is false, the registry is unchanged. A malformed registration is still an error. |
| Decoration.Decorate | src/Scrutor/Decoration/Decorator.cs:38-48 | The call fails with a missing-registration error naming the strategy's service type exactly when the pass completes with count 0, and then the registry is unchanged. Otherwise it returns the rewritten registry itself. |

## Left out

- The bodies of `ClosedTypeDecoratorStrategy`, `OpenGenericDecoratorStrategy`
  and `IDecoratorStrategy` are not part of this model.
  - The closed-type match is exact equality of service types.
  - The open-generic match is the opaque reflection predicate `instantiates`.
  - `CreateDecorator` returns an abstract factory that names the decorator
    configuration and the marker. What that factory does when the container
    invokes it is left out.
- The strategy constructors' check that a decorator type or a decorator factory
  is given is not modelled, because those constructors are not part of this
  model. `Create` always succeeds.
- `IsOpenGeneric` and the instantiation test of the open-generic strategy are
  reflection, and are represented by the opaque predicates in `Reflection`.
  Closing an open-generic decorator over the type arguments is left out. The
  term `Decorating(decoration, marker)` that `CreateDecorator` builds stands
  for it, and this term is not interpreted.
- `ServiceDescriptor` and `IServiceCollection` internals are left out: lifetime
  defaults beyond the instance constructor, and resolution. The collection is
  modelled as an immutable sequence that the methods return.
- Exception messages and exception classes are left out. Errors are the two
  `Error` variants.
- Thread safety is left out. The source has none, and the model is sequential.
- The source's `int` counter is not bounded in the model. A registry would need
  more than 2^31 entries for it to overflow.
- RewriteProperties.RedecorationWraps: the markers of the two passes are
  proved distinct only when `seed'` is at least `seed` plus the first pass's
  count. The model's nonce supply is a parameter, and a caller that reuses
  nonces can make the two markers coincide. C#'s `new` never does that.
