/** The registry rewrite performed by one decoration pass: a reverse scan over
    the registrations present when the pass starts, which appends an alias of
    each matched registration under a fresh marker and overwrites the
    registration in place with the decorator's factory. */
module Rewrite {
  import opened Services
  import opened Strategies

  /** How a pass ends. A malformed registration stops it with an error, but the
      registrations rewritten before it stay rewritten, so `Aborted` carries
      the registry as the pass left it. */
  datatype PassResult =
    | Completed(services: seq<Descriptor>, count: nat)
    | Aborted(services: seq<Descriptor>, failedAt: nat, error: Error)

  predicate IsNotAlreadyDecorated(d: Descriptor)
  {
    !d.serviceType.Marker?
  }

  /** A registration the pass rewrites. */
  predicate Eligible(s: Strategy, d: Descriptor)
  {
    IsNotAlreadyDecorated(d) && CanDecorate(s, d.serviceType)
  }

  /** The alias registration: the original recipe re-registered under the
      marker, or an error when the registration has no recipe at all. */
  function CreateDecoratedServiceDescriptor(d: Descriptor, marker: SvcType): (r: Result<Descriptor>)
    ensures r.Err? <==> d.recipe.NoRecipe?
    ensures r.Err? ==> r.error == MalformedRegistration(d.serviceType)
    ensures r.Ok? ==> r.value.serviceType == marker && r.value.recipe == d.recipe
    ensures r.Ok? ==> r.value.lifetime == if d.recipe.Instance? then Singleton else d.lifetime
  {
    match d.recipe
    case ImplType(t) => Ok(Descriptor(marker, ImplType(t), d.lifetime))
    case Factory(f) => Ok(Descriptor(marker, Factory(f), d.lifetime))
    case Instance(o) => Ok(InstanceDescriptor(marker, o))
    case NoRecipe => Err(MalformedRegistration(d.serviceType))
  }

  /** The registration that replaces a matched one: same service type and
      lifetime, the decorator's factory as recipe. */
  function Replacement(s: Strategy, d: Descriptor, marker: SvcType): (r: Descriptor)
    ensures r.serviceType == d.serviceType && r.lifetime == d.lifetime
    ensures r.recipe.Factory? && r.recipe.factory == CreateDecorator(s, marker)
  {
    Descriptor(d.serviceType, Factory(CreateDecorator(s, marker)), d.lifetime)
  }

  // ---------------------------------------------------------------------------
  // The pass as a pure function: the loop body applied to index i - 1, then
  // the rest of the loop on the indices below it.
  // ---------------------------------------------------------------------------

  function Scan(s: Strategy, services: seq<Descriptor>, i: nat, count: nat, seed: nat): PassResult
    requires i <= |services|
    decreases i
  {
    if i == 0 then Completed(services, count)
    else
      var d := services[i - 1];
      if !Eligible(s, d) then Scan(s, services, i - 1, count, seed)
      else
        var marker := Marker(d.serviceType, seed + count);
        match CreateDecoratedServiceDescriptor(d, marker)
        case Err(e) => Aborted(services, i - 1, e)
        case Ok(alias) =>
          Scan(s, (services + [alias])[i - 1 := Replacement(s, d, marker)], i - 1, count + 1, seed)
  }

  /** A whole pass over `services`; nonces for the fresh markers are drawn
      from `seed` upwards. */
  function DecorateSpec(s: Strategy, services: seq<Descriptor>, seed: nat): PassResult
  {
    Scan(s, services, |services|, 0, seed)
  }

  // ---------------------------------------------------------------------------
  // The closed form of a pass, in terms of the original registry.
  // ---------------------------------------------------------------------------

  /** Number of eligible registrations in `ds`. */
  function CountEligible(s: Strategy, ds: seq<Descriptor>): nat
  {
    if |ds| == 0 then 0
    else (if Eligible(s, ds[0]) then 1 else 0) + CountEligible(s, ds[1..])
  }

  /** How many eligible registrations lie above index k: the number of
      rewrites the pass performs before it reaches k. */
  function Rank(s: Strategy, orig: seq<Descriptor>, k: nat): nat
    requires k < |orig|
  {
    CountEligible(s, orig[k + 1..])
  }

  /** The marker allocated for the registration at index k. */
  function MarkerFor(s: Strategy, orig: seq<Descriptor>, seed: nat, k: nat): SvcType
    requires k < |orig|
  {
    Marker(orig[k].serviceType, seed + Rank(s, orig, k))
  }

  /** What index k of the original registry holds once the pass has been there. */
  function RewrittenAt(s: Strategy, orig: seq<Descriptor>, seed: nat, k: nat): Descriptor
    requires k < |orig|
  {
    if Eligible(s, orig[k]) then Replacement(s, orig[k], MarkerFor(s, orig, seed, k)) else orig[k]
  }

  predicate HasMalformedFrom(s: Strategy, orig: seq<Descriptor>, lo: nat)
  {
    exists k :: lo <= k < |orig| && Eligible(s, orig[k]) && orig[k].recipe.NoRecipe?
  }

  /** An eligible registration without a recipe: the input that aborts a pass. */
  predicate HasMalformed(s: Strategy, orig: seq<Descriptor>)
  {
    HasMalformedFrom(s, orig, 0)
  }

  /** Indices below lo still hold the original registrations. */
  ghost predicate UntouchedBelow(orig: seq<Descriptor>, lo: nat, cur: seq<Descriptor>)
    requires lo <= |orig| <= |cur|
  {
    forall k :: 0 <= k < lo ==> cur[k] == orig[k]
  }

  /** Indices lo .. |orig| - 1 hold what the pass leaves there. */
  ghost predicate RewrittenFrom(s: Strategy, orig: seq<Descriptor>, seed: nat, lo: nat, cur: seq<Descriptor>)
    requires lo <= |orig| <= |cur|
  {
    forall k :: lo <= k < |orig| ==> cur[k] == RewrittenAt(s, orig, seed, k)
  }

  /** The alias of each eligible index k from lo up sits at offset Rank(k)
      of the appended tail. */
  ghost predicate AliasesFrom(s: Strategy, orig: seq<Descriptor>, seed: nat, lo: nat, cur: seq<Descriptor>)
    requires lo <= |orig|
  {
    forall k :: lo <= k < |orig| && Eligible(s, orig[k]) ==>
      && |orig| + Rank(s, orig, k) < |cur|
      && CreateDecoratedServiceDescriptor(orig[k], MarkerFor(s, orig, seed, k))
         == Ok(cur[|orig| + Rank(s, orig, k)])
  }

  /** Everything past the original registrations is registered under a marker. */
  ghost predicate TailMarkers(orig: seq<Descriptor>, cur: seq<Descriptor>)
  {
    forall t :: |orig| <= t < |cur| ==> cur[t].serviceType.Marker?
  }

  /** `cur` is `orig` after the pass has handled indices lo .. |orig| - 1:
      those are rewritten, the ones below are untouched, and the appended
      tail holds the aliases, the one for index k at offset Rank(k). */
  ghost predicate Processed(s: Strategy, orig: seq<Descriptor>, seed: nat, lo: nat, cur: seq<Descriptor>)
    requires lo <= |orig|
  {
    && |cur| == |orig| + CountEligible(s, orig[lo..])
    && UntouchedBelow(orig, lo, cur)
    && RewrittenFrom(s, orig, seed, lo, cur)
    && AliasesFrom(s, orig, seed, lo, cur)
    && TailMarkers(orig, cur)
    && !HasMalformedFrom(s, orig, lo)
  }

  lemma CountEligibleUnfold(s: Strategy, ds: seq<Descriptor>, k: nat)
    requires k < |ds|
    ensures CountEligible(s, ds[k..]) == (if Eligible(s, ds[k]) then 1 else 0) + CountEligible(s, ds[k + 1..])
  {
    assert ds[k..][1..] == ds[k + 1..];
  }

  /** An eligible index at or above lo is counted by CountEligible(orig[lo..]),
      so its rank is below that count. */
  lemma {:induction false} RankBelowCount(s: Strategy, orig: seq<Descriptor>, lo: nat, k: nat)
    requires lo <= k < |orig| && Eligible(s, orig[k])
    ensures Rank(s, orig, k) < CountEligible(s, orig[lo..])
    decreases k - lo
  {
    CountEligibleUnfold(s, orig, lo);
    if lo < k {
      RankBelowCount(s, orig, lo + 1, k);
    }
  }

  /** A step over a registration the pass skips keeps the closed form. */
  lemma SkipStep(s: Strategy, orig: seq<Descriptor>, seed: nat, i: nat, cur: seq<Descriptor>)
    requires 0 < i <= |orig|
    requires Processed(s, orig, seed, i, cur) && !Eligible(s, orig[i - 1])
    ensures Processed(s, orig, seed, i - 1, cur)
  {
    CountEligibleUnfold(s, orig, i - 1);
  }

  /** The registry after the loop body has rewritten index i - 1: the alias
      appended, then the registration replaced. */
  function RewriteAt(s: Strategy, orig: seq<Descriptor>, seed: nat, i: nat, cur: seq<Descriptor>, alias: Descriptor): seq<Descriptor>
    requires 0 < i <= |orig| <= |cur|
  {
    (cur + [alias])[i - 1 := Replacement(s, orig[i - 1], MarkerFor(s, orig, seed, i - 1))]
  }

  lemma RewriteStepEntries(s: Strategy, orig: seq<Descriptor>, seed: nat, i: nat, cur: seq<Descriptor>, alias: Descriptor)
    requires 0 < i <= |orig| <= |cur|
    requires UntouchedBelow(orig, i, cur) && RewrittenFrom(s, orig, seed, i, cur)
    requires Eligible(s, orig[i - 1])
    ensures UntouchedBelow(orig, i - 1, RewriteAt(s, orig, seed, i, cur, alias))
    ensures RewrittenFrom(s, orig, seed, i - 1, RewriteAt(s, orig, seed, i, cur, alias))
  {
    var next := RewriteAt(s, orig, seed, i, cur, alias);
    forall k | i - 1 <= k < |orig|
      ensures next[k] == RewrittenAt(s, orig, seed, k)
    {
    }
  }

  lemma RewriteStepAliases(s: Strategy, orig: seq<Descriptor>, seed: nat, i: nat, cur: seq<Descriptor>, alias: Descriptor)
    requires 0 < i <= |orig| <= |cur|
    requires |cur| == |orig| + CountEligible(s, orig[i..])
    requires AliasesFrom(s, orig, seed, i, cur)
    requires Eligible(s, orig[i - 1])
    requires CreateDecoratedServiceDescriptor(orig[i - 1], MarkerFor(s, orig, seed, i - 1)) == Ok(alias)
    ensures AliasesFrom(s, orig, seed, i - 1, RewriteAt(s, orig, seed, i, cur, alias))
  {
    var n := |orig|;
    var next := RewriteAt(s, orig, seed, i, cur, alias);
    assert orig[i - 1 + 1..] == orig[i..];
    forall k | i - 1 <= k < n && Eligible(s, orig[k])
      ensures && n + Rank(s, orig, k) < |next|
              && CreateDecoratedServiceDescriptor(orig[k], MarkerFor(s, orig, seed, k))
                 == Ok(next[n + Rank(s, orig, k)])
    {
      if k >= i {
        RankBelowCount(s, orig, i, k);
      }
    }
  }

  /** A step that rewrites the registration at i - 1 keeps the closed form. */
  lemma RewriteStep(s: Strategy, orig: seq<Descriptor>, seed: nat, i: nat, cur: seq<Descriptor>, alias: Descriptor)
    requires 0 < i <= |orig|
    requires Processed(s, orig, seed, i, cur)
    requires Eligible(s, orig[i - 1])
    requires CreateDecoratedServiceDescriptor(orig[i - 1], MarkerFor(s, orig, seed, i - 1)) == Ok(alias)
    ensures Processed(s, orig, seed, i - 1, RewriteAt(s, orig, seed, i, cur, alias))
  {
    var next := RewriteAt(s, orig, seed, i, cur, alias);
    CountEligibleUnfold(s, orig, i - 1);
    RewriteStepEntries(s, orig, seed, i, cur, alias);
    RewriteStepAliases(s, orig, seed, i, cur, alias);
    assert TailMarkers(orig, next) by {
      forall t | |orig| <= t < |next|
        ensures next[t].serviceType.Marker?
      {
      }
    }
  }

  /** What a pass over `orig` ends with: the closed form for the whole
      registry and the count of eligible registrations, or a stop at the
      highest eligible registration without a recipe, below `hi`, with the
      registrations above it rewritten. */
  ghost predicate PassMeaning(s: Strategy, orig: seq<Descriptor>, seed: nat, hi: nat, r: PassResult)
  {
    match r
    case Completed(res, c) =>
      Processed(s, orig, seed, 0, res) && c == CountEligible(s, orig)
    case Aborted(res, at, e) =>
      && at < hi && at < |orig|
      && Eligible(s, orig[at]) && orig[at].recipe.NoRecipe?
      && e == MalformedRegistration(orig[at].serviceType)
      && Processed(s, orig, seed, at + 1, res)
  }

  lemma CompletedMeaning(s: Strategy, orig: seq<Descriptor>, seed: nat, cur: seq<Descriptor>, count: nat)
    requires Processed(s, orig, seed, 0, cur) && count == CountEligible(s, orig[0..])
    ensures PassMeaning(s, orig, seed, 0, Scan(s, cur, 0, count, seed))
  {
    assert orig[0..] == orig;
  }

  lemma AbortMeaning(s: Strategy, orig: seq<Descriptor>, seed: nat, i: nat, cur: seq<Descriptor>, count: nat)
    requires 0 < i <= |orig|
    requires Processed(s, orig, seed, i, cur)
    requires Eligible(s, orig[i - 1]) && orig[i - 1].recipe.NoRecipe?
    ensures PassMeaning(s, orig, seed, i, Scan(s, cur, i, count, seed))
  {
    assert cur[i - 1] == orig[i - 1];
  }

  lemma PassMeaningWeaken(s: Strategy, orig: seq<Descriptor>, seed: nat, hi: nat, hi': nat, r: PassResult)
    requires hi <= hi' && PassMeaning(s, orig, seed, hi, r)
    ensures PassMeaning(s, orig, seed, hi', r)
  {
  }

  /** The pure pass, started from any intermediate state of the closed form,
      ends as PassMeaning says. */
  lemma {:induction false} ScanMeaning(s: Strategy, orig: seq<Descriptor>, seed: nat, i: nat, cur: seq<Descriptor>, count: nat)
    requires i <= |orig|
    requires Processed(s, orig, seed, i, cur) && count == CountEligible(s, orig[i..])
    ensures PassMeaning(s, orig, seed, i, Scan(s, cur, i, count, seed))
    decreases i, 1
  {
    if i == 0 {
      CompletedMeaning(s, orig, seed, cur, count);
    } else if !Eligible(s, orig[i - 1]) {
      SkipMeaning(s, orig, seed, i, cur, count);
    } else if orig[i - 1].recipe.NoRecipe? {
      AbortMeaning(s, orig, seed, i, cur, count);
    } else {
      RewriteMeaning(s, orig, seed, i, cur, count);
    }
  }

  /** The pass over a registration it skips moves the closed form and the
      pure pass one index down together, with the list unchanged. */
  lemma SkipAdvance(s: Strategy, orig: seq<Descriptor>, seed: nat, i: nat, cur: seq<Descriptor>, count: nat)
    requires 0 < i <= |orig|
    requires Processed(s, orig, seed, i, cur) && count == CountEligible(s, orig[i..])
    requires !Eligible(s, orig[i - 1])
    ensures Processed(s, orig, seed, i - 1, cur)
    ensures count == CountEligible(s, orig[i - 1..])
    ensures Scan(s, cur, i, count, seed) == Scan(s, cur, i - 1, count, seed)
  {
    CountEligibleUnfold(s, orig, i - 1);
    SkipStep(s, orig, seed, i, cur);
    assert cur[i - 1] == orig[i - 1] by { assert UntouchedBelow(orig, i, cur); }
  }

  lemma {:induction false} SkipMeaning(s: Strategy, orig: seq<Descriptor>, seed: nat, i: nat, cur: seq<Descriptor>, count: nat)
    requires 0 < i <= |orig|
    requires Processed(s, orig, seed, i, cur) && count == CountEligible(s, orig[i..])
    requires !Eligible(s, orig[i - 1])
    ensures PassMeaning(s, orig, seed, i, Scan(s, cur, i, count, seed))
    decreases i, 0
  {
    SkipAdvance(s, orig, seed, i, cur, count);
    ghost var r := Scan(s, cur, i - 1, count, seed);
    ScanMeaning(s, orig, seed, i - 1, cur, count);
    PassMeaningWeaken(s, orig, seed, i - 1, i, r);
  }

  /** One step of the pure pass over an eligible registration that has a
      recipe. */
  lemma ScanRewriteUnfold(s: Strategy, orig: seq<Descriptor>, seed: nat, i: nat, cur: seq<Descriptor>, count: nat, alias: Descriptor)
    requires 0 < i <= |orig| <= |cur|
    requires cur[i - 1] == orig[i - 1] && Eligible(s, orig[i - 1])
    requires count == Rank(s, orig, i - 1)
    requires CreateDecoratedServiceDescriptor(orig[i - 1], MarkerFor(s, orig, seed, i - 1)) == Ok(alias)
    ensures Scan(s, cur, i, count, seed) == Scan(s, RewriteAt(s, orig, seed, i, cur, alias), i - 1, count + 1, seed)
  {
  }

  /** The pass over an eligible registration with a recipe moves the closed
      form and the pure pass one index down together. */
  lemma RewriteAdvance(s: Strategy, orig: seq<Descriptor>, seed: nat, i: nat, cur: seq<Descriptor>, count: nat)
    returns (next: seq<Descriptor>)
    requires 0 < i <= |orig|
    requires Processed(s, orig, seed, i, cur) && count == CountEligible(s, orig[i..])
    requires Eligible(s, orig[i - 1]) && !orig[i - 1].recipe.NoRecipe?
    ensures i - 1 <= |orig| && Processed(s, orig, seed, i - 1, next)
    ensures count + 1 == CountEligible(s, orig[i - 1..])
    ensures Scan(s, cur, i, count, seed) == Scan(s, next, i - 1, count + 1, seed)
  {
    CountEligibleUnfold(s, orig, i - 1);
    assert cur[i - 1] == orig[i - 1] by { assert UntouchedBelow(orig, i, cur); }
    var alias := CreateDecoratedServiceDescriptor(orig[i - 1], MarkerFor(s, orig, seed, i - 1)).value;
    next := RewriteAt(s, orig, seed, i, cur, alias);
    ScanRewriteUnfold(s, orig, seed, i, cur, count, alias);
    RewriteStep(s, orig, seed, i, cur, alias);
  }

  lemma {:induction false} RewriteMeaning(s: Strategy, orig: seq<Descriptor>, seed: nat, i: nat, cur: seq<Descriptor>, count: nat)
    requires 0 < i <= |orig|
    requires Processed(s, orig, seed, i, cur) && count == CountEligible(s, orig[i..])
    requires Eligible(s, orig[i - 1]) && !orig[i - 1].recipe.NoRecipe?
    ensures PassMeaning(s, orig, seed, i, Scan(s, cur, i, count, seed))
    decreases i, 0
  {
    var next := RewriteAdvance(s, orig, seed, i, cur, count);
    ghost var r := Scan(s, next, i - 1, count + 1, seed);
    ScanMeaning(s, orig, seed, i - 1, next, count + 1);
    PassMeaningWeaken(s, orig, seed, i - 1, i, r);
  }

  lemma ProcessedInitially(s: Strategy, orig: seq<Descriptor>, seed: nat)
    ensures Processed(s, orig, seed, |orig|, orig)
  {
    assert orig[|orig|..] == [];
  }

  /** Every pass ends as PassMeaning says, and it completes exactly when no
      eligible registration lacks a recipe. */
  lemma PassFacts(s: Strategy, orig: seq<Descriptor>, seed: nat)
    ensures PassMeaning(s, orig, seed, |orig|, DecorateSpec(s, orig, seed))
    ensures DecorateSpec(s, orig, seed).Completed? <==> !HasMalformed(s, orig)
  {
    ProcessedInitially(s, orig, seed);
    ScanMeaning(s, orig, seed, |orig|, orig, 0);
  }

  /** One iteration of the loop: the registration at i - 1 is either passed
      over, or aliased and replaced, or found malformed. Entries below i - 1
      are not touched, and what remains of the pass is unchanged. */
  method VisitEntry(s: Strategy, cur: seq<Descriptor>, i: nat, count: nat, seed: nat)
    returns (next: seq<Descriptor>, count': nat, failure: Option<Error>)
    requires 0 < i <= |cur|
    ensures failure.Some? <==> Eligible(s, cur[i - 1]) && cur[i - 1].recipe.NoRecipe?
    ensures failure.Some? ==> Scan(s, cur, i, count, seed) == Aborted(cur, i - 1, failure.value)
    ensures failure.None? ==>
      && i - 1 <= |next|
      && next[..i - 1] == cur[..i - 1]
      && Scan(s, cur, i, count, seed) == Scan(s, next, i - 1, count', seed)
    ensures failure.None? ==> (count' == count + 1 <==> Eligible(s, cur[i - 1]))
    ensures failure.None? ==> |next| == |cur| + count' - count
  {
    var d := cur[i - 1];
    next, count', failure := cur, count, None;
    if IsNotAlreadyDecorated(d) && CanDecorate(s, d.serviceType) {
      var marker := Marker(d.serviceType, seed + count);
      var decoratorFactory := CreateDecorator(s, marker);
      var alias := CreateDecoratedServiceDescriptor(d, marker);
      if alias.Err? {
        return cur, count, Some(alias.error);
      }
      next := cur + [alias.value];
      next := next[i - 1 := Descriptor(d.serviceType, Factory(decoratorFactory), d.lifetime)];
      count' := count + 1;
      assert next[..i - 1] == cur[..i - 1];
    }
  }

  /** The pass as the engine performs it: a loop from the last registration
      present at the start down to the first, appending aliases behind the
      loop's fixed bound and overwriting entries already passed. The ghost
      `visited` records the indices the loop reads, in order, and `seen` the
      registrations it finds there: always the original ones. */
  method DecorateServices(s: Strategy, services: seq<Descriptor>, seed: nat)
    returns (r: PassResult, ghost visited: seq<nat>, ghost seen: seq<Descriptor>)
    ensures r == DecorateSpec(s, services, seed)
    ensures r.Completed? <==> !HasMalformed(s, services)
    ensures PassMeaning(s, services, seed, |services|, r)
    ensures |visited| == |services| - (if r.Aborted? then r.failedAt else 0)
    ensures |seen| == |visited|
    ensures forall t :: 0 <= t < |visited| ==> visited[t] == |services| - 1 - t && seen[t] == services[visited[t]]
  {
    var cur := services;
    var count := 0;
    var i := |services|;
    visited := [];
    seen := [];
    while i > 0
      invariant 0 <= i <= |services| && i <= |cur|
      invariant cur[..i] == services[..i]
      invariant Scan(s, cur, i, count, seed) == DecorateSpec(s, services, seed)
      invariant |visited| == |services| - i
      invariant |seen| == |visited|
      invariant forall t :: 0 <= t < |visited| ==> visited[t] == |services| - 1 - t && seen[t] == services[visited[t]]
    {
      assert cur[i - 1] == services[i - 1] by { assert cur[..i][i - 1] == services[..i][i - 1]; }
      visited := visited + [i - 1];
      seen := seen + [cur[i - 1]];
      var next, count', failure := VisitEntry(s, cur, i, count, seed);
      if failure.Some? {
        r := Aborted(cur, i - 1, failure.value);
        PassFacts(s, services, seed);
        return r, visited, seen;
      }
      assert next[..i - 1] == services[..i - 1] by {
        assert cur[..i - 1] == cur[..i][..i - 1];
        assert services[..i - 1] == services[..i][..i - 1];
      }
      cur, count, i := next, count', i - 1;
    }
    r := Completed(cur, count);
    PassFacts(s, services, seed);
  }
}
