/** Properties of a decoration pass that relate several registrations or
    several passes, derived from the closed form in `Rewrite`. */
module RewriteProperties {
  import opened Services
  import opened Strategies
  import opened Rewrite

  /** An eligible registration is counted, so a zero count means no
      registration is eligible. */
  lemma EligibleIsCounted(s: Strategy, orig: seq<Descriptor>, k: nat)
    requires k < |orig| && Eligible(s, orig[k])
    ensures CountEligible(s, orig) > 0
  {
    RankBelowCount(s, orig, 0, k);
    assert orig[0..] == orig;
  }

  /** With nothing to decorate, a pass changes nothing and reports zero. */
  lemma NoMatchLeavesUnchanged(s: Strategy, orig: seq<Descriptor>, seed: nat)
    requires CountEligible(s, orig) == 0
    ensures DecorateSpec(s, orig, seed) == Completed(orig, 0)
  {
    PassFacts(s, orig, seed);
    forall k | 0 <= k < |orig| && Eligible(s, orig[k]) && orig[k].recipe.NoRecipe?
      ensures false
    {
      EligibleIsCounted(s, orig, k);
    }
    var res := DecorateSpec(s, orig, seed).services;
    forall k | 0 <= k < |orig|
      ensures res[k] == orig[k]
    {
      if Eligible(s, orig[k]) {
        EligibleIsCounted(s, orig, k);
      }
    }
    assert orig[0..] == orig;
  }

  /** A registration the pass rewrote keeps its service type and lifetime and
      now builds the decorator through its own marker, which wraps the
      original service type; the alias under that marker sits in the
      appended tail and carries the original recipe. */
  lemma DecoratedEntry(s: Strategy, orig: seq<Descriptor>, seed: nat, k: nat)
    requires k < |orig| && Eligible(s, orig[k])
    requires DecorateSpec(s, orig, seed).Completed?
    ensures var res := DecorateSpec(s, orig, seed).services;
      var marker := MarkerFor(s, orig, seed, k);
      var at := |orig| + Rank(s, orig, k);
      && marker.orig == orig[k].serviceType
      && k < |res|
      && res[k].serviceType == orig[k].serviceType
      && res[k].lifetime == orig[k].lifetime
      && res[k].recipe == Factory(Decorating(s.decoration, marker))
      && at < |res|
      && res[at].serviceType == marker
      && res[at].recipe == orig[k].recipe
      && res[at].lifetime == (if orig[k].recipe.Instance? then Singleton else orig[k].lifetime)
  {
    PassFacts(s, orig, seed);
  }

  /** A registration the pass does not match, a marker registration among
      them, is left as it was, whether the pass completes or stops early. */
  lemma SkippedEntryUnchanged(s: Strategy, orig: seq<Descriptor>, seed: nat, k: nat)
    requires k < |orig| && !Eligible(s, orig[k])
    ensures k < |DecorateSpec(s, orig, seed).services|
    ensures DecorateSpec(s, orig, seed).services[k] == orig[k]
  {
    PassFacts(s, orig, seed);
  }

  /** An alias is registered under a marker, so no strategy ever matches it:
      the already-decorated test keeps a pass from decorating the originals it
      re-registered, in this pass or a later one. */
  lemma AliasNeverRematched(s: Strategy, d: Descriptor, marker: SvcType)
    requires marker.Marker? && !d.recipe.NoRecipe?
    ensures CreateDecoratedServiceDescriptor(d, marker).Ok?
    ensures !IsNotAlreadyDecorated(CreateDecoratedServiceDescriptor(d, marker).value)
    ensures !Eligible(s, CreateDecoratedServiceDescriptor(d, marker).value)
  {
  }

  /** The replacing registration keeps the service type, so it is eligible
      exactly when the original was: a later pass with the same strategy
      decorates it again. */
  lemma ReplacementStillEligible(s: Strategy, d: Descriptor, marker: SvcType)
    ensures Eligible(s, Replacement(s, d, marker)) <==> Eligible(s, d)
  {
  }

  /** The higher of two eligible indices has the smaller rank: it is rewritten
      earlier and, when the pass completes, its alias sits earlier in the
      appended tail than the alias of the lower index. */
  lemma HigherIndexAliasedFirst(s: Strategy, orig: seq<Descriptor>, seed: nat, j1: nat, j2: nat)
    requires j1 < j2 < |orig| && Eligible(s, orig[j2])
    ensures Rank(s, orig, j2) < Rank(s, orig, j1)
    ensures DecorateSpec(s, orig, seed).Completed? && Eligible(s, orig[j1]) ==>
      var res := DecorateSpec(s, orig, seed).services;
      var at1 := |orig| + Rank(s, orig, j1);
      var at2 := |orig| + Rank(s, orig, j2);
      && |orig| <= at2 < at1 < |res|
      && res[at2].serviceType == MarkerFor(s, orig, seed, j2)
      && res[at1].serviceType == MarkerFor(s, orig, seed, j1)
  {
    RankBelowCount(s, orig, j1 + 1, j2);
    if DecorateSpec(s, orig, seed).Completed? && Eligible(s, orig[j1]) {
      DecoratedEntry(s, orig, seed, j1);
      DecoratedEntry(s, orig, seed, j2);
    }
  }

  /** No marker is reused within a pass, and when the nonce supply starts
      above every nonce already in the registry no marker equals a service
      type registered before the pass. */
  lemma MarkersAreFresh(s: Strategy, orig: seq<Descriptor>, seed: nat)
    ensures forall j1, j2 :: 0 <= j1 < j2 < |orig| && Eligible(s, orig[j2]) ==>
      MarkerFor(s, orig, seed, j1) != MarkerFor(s, orig, seed, j2)
    ensures (forall m :: 0 <= m < |orig| && orig[m].serviceType.Marker? ==> orig[m].serviceType.nonce < seed) ==>
      forall k, m :: 0 <= k < |orig| && 0 <= m < |orig| ==> MarkerFor(s, orig, seed, k) != orig[m].serviceType
  {
    forall j1, j2 | 0 <= j1 < j2 < |orig| && Eligible(s, orig[j2])
      ensures MarkerFor(s, orig, seed, j1) != MarkerFor(s, orig, seed, j2)
    {
      HigherIndexAliasedFirst(s, orig, seed, j1, j2);
    }
  }

  lemma {:induction false} CountEligibleSame(s: Strategy, a: seq<Descriptor>, b: seq<Descriptor>)
    requires |a| == |b|
    requires forall k :: 0 <= k < |a| ==> Eligible(s, a[k]) == Eligible(s, b[k])
    ensures CountEligible(s, a) == CountEligible(s, b)
  {
    if |a| > 0 {
      CountEligibleSame(s, a[1..], b[1..]);
    }
  }

  lemma {:induction false} CountEligibleAppend(s: Strategy, a: seq<Descriptor>, b: seq<Descriptor>)
    ensures CountEligible(s, a + b) == CountEligible(s, a) + CountEligible(s, b)
  {
    if |a| == 0 {
      assert a + b == b;
    } else {
      assert (a + b)[1..] == a[1..] + b;
      CountEligibleAppend(s, a[1..], b);
    }
  }

  lemma {:induction false} CountEligibleNone(s: Strategy, a: seq<Descriptor>)
    requires forall k :: 0 <= k < |a| ==> !Eligible(s, a[k])
    ensures CountEligible(s, a) == 0
  {
    if |a| > 0 {
      CountEligibleNone(s, a[1..]);
    }
  }

  /** Decoration is not idempotent: running the same strategy again over the
      result of a completed pass matches the rewritten registrations (they
      keep their service type) but not the aliases, so it completes and
      rewrites exactly as many registrations again. What it puts at each
      decorated registration is stated by RedecorationWraps. */
  lemma RedecorationStacks(s: Strategy, orig: seq<Descriptor>, seed: nat, seed': nat)
    requires DecorateSpec(s, orig, seed).Completed?
    ensures var first := DecorateSpec(s, orig, seed);
      var second := DecorateSpec(s, first.services, seed');
      && second.Completed?
      && second.count == first.count
      && |second.services| == |orig| + 2 * first.count
  {
    PassFacts(s, orig, seed);
    var first := DecorateSpec(s, orig, seed);
    var res := first.services;
    var n := |orig|;
    assert orig[0..] == orig;
    assert res == res[..n] + res[n..];
    CountEligibleSame(s, res[..n], orig);
    CountEligibleNone(s, res[n..]);
    CountEligibleAppend(s, res[..n], res[n..]);
    assert CountEligible(s, res) == first.count;
    forall k | 0 <= k < |res| && Eligible(s, res[k])
      ensures !res[k].recipe.NoRecipe?
    {
    }
    PassFacts(s, res, seed');
  }

  /** What a second pass does to one registration that both passes decorate:
      its alias under the second marker carries the first decorator's
      factory, and the registration builds the second decorator through that
      marker. When the second pass's nonce supply starts past every nonce the
      first pass used, as fresh allocation guarantees, the two markers differ,
      so the second decorator wraps the first rather than resolving its own
      alias. */
  lemma RedecorationWraps(s: Strategy, orig: seq<Descriptor>, seed: nat, seed': nat, k: nat)
    requires k < |orig| && Eligible(s, orig[k])
    requires DecorateSpec(s, orig, seed).Completed?
    ensures var first := DecorateSpec(s, orig, seed).services;
      var second := DecorateSpec(s, first, seed');
      && k < |first|
      && var inner := MarkerFor(s, orig, seed, k);
         var outer := MarkerFor(s, first, seed', k);
         var at := |first| + Rank(s, first, k);
         && second.Completed?
         && outer.orig == orig[k].serviceType
         && k < |second.services|
         && second.services[k] == Descriptor(orig[k].serviceType, Factory(Decorating(s.decoration, outer)), orig[k].lifetime)
         && at < |second.services|
         && second.services[at] == Descriptor(outer, Factory(Decorating(s.decoration, inner)), orig[k].lifetime)
         && (seed' >= seed + DecorateSpec(s, orig, seed).count ==> outer != inner)
  {
    PassFacts(s, orig, seed);
    RankBelowCount(s, orig, 0, k);
    assert orig[0..] == orig;
    RedecorationStacks(s, orig, seed, seed');
    DecoratedEntry(s, orig, seed, k);
    var first := DecorateSpec(s, orig, seed).services;
    assert Eligible(s, first[k]);
    DecoratedEntry(s, first, seed', k);
  }

  /** A registry with a single registration of T by implementation type A:
      decorating T leaves two registrations, T built by the decorator around
      the marker, and the marker bound to A, both with the original lifetime. */
  lemma SingleRegistrationScenario(t: TypeId, a: TypeId, decoration: DecoratorConfig, seed: nat)
    ensures var s := ClosedType(Plain(t), decoration);
      var orig := [Descriptor(Plain(t), ImplType(a), Singleton)];
      var marker := Marker(Plain(t), seed);
      DecorateSpec(s, orig, seed) == Completed([
        Descriptor(Plain(t), Factory(Decorating(decoration, marker)), Singleton),
        Descriptor(marker, ImplType(a), Singleton)], 1)
  {
  }
}
