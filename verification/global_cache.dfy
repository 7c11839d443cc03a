/**
 * The global-settings cache of `controllers/page/globalController.tsx`.
 *
 * The controller keeps two process-wide variables, the last settings payload
 * and the time it was stored, and serves the payload without a fetch while it
 * is younger than one minute. Here the pair is an immutable `CacheState`, and
 * one call of `getGlobalData` is the step function `Get`, which takes the
 * clock reading and the outcome of the fetch as inputs. The outcome is
 * consulted only when the step reports that it fetched.
 */
module GlobalController {
  import opened Common

  /** Freshness window in milliseconds. */
  const CacheDuration: int := 60 * 1000

  datatype NavItem = NavItem(text: string, href: string)
  datatype FooterCategory = FooterCategory(title: string, links: seq<NavItem>)
  datatype SocialLink = SocialLink(platform: string, url: string)

  /** The site-wide settings payload; every list may be missing. */
  datatype GlobalData = GlobalData(
    siteName: Option<string>,
    navigation: Option<seq<NavItem>>,
    footerLinks: Option<seq<FooterCategory>>,
    socialLinks: Option<seq<SocialLink>>)

  /** `globalDataCache` and `cacheTimestamp`. */
  datatype CacheState = CacheState(data: Option<GlobalData>, timestamp: Option<int>)

  /** Both variables start out `null`. */
  const Initial: CacheState := CacheState(None, None)

  /**
   * What awaiting the settings fetch produced, if the step fetches.
   * `Fetched` carries the clock reading taken after the fetch completed,
   * which is the one stored as the new timestamp.
   */
  datatype FetchOutcome = Fetched(data: GlobalData, at: int) | FetchedNull | Threw

  /** The state after one call, the value it returned, and whether it fetched. */
  datatype Step = Step(state: CacheState, result: Option<GlobalData>, fetched: bool)

  /**
   * The cache-hit test. The timestamp must be truthy, so a stored
   * timestamp of 0 counts as no cache at all.
   */
  predicate IsFresh(s: CacheState, now: int): (b: bool)
    // A hit needs both variables set.
    ensures b ==> s.data.Some? && s.timestamp.Some?
    // A timestamp of 0 is falsy and never hits.
    ensures s.timestamp == Some(0) ==> !b
    // Otherwise the entry is served until `CacheDuration` after it was stored, exclusive.
    ensures s.data.Some? && s.timestamp.Some? && s.timestamp.value != 0 ==>
      (b <==> now < s.timestamp.value + CacheDuration)
  {
    && s.data.Some?
    && s.timestamp.Some?
    && s.timestamp.value != 0
    && now - s.timestamp.value < CacheDuration
  }

  /** The cache holds a payload exactly when it holds a timestamp. */
  predicate Consistent(s: CacheState) {
    s.data.Some? <==> s.timestamp.Some?
  }

  /** One call of `getGlobalData` at clock reading `now`. */
  function Get(s: CacheState, now: int, outcome: FetchOutcome): (r: Step)
    // A fresh cache is served as it is, without a fetch.
    ensures IsFresh(s, now) ==> r.result == s.data && r.state == s && !r.fetched
    // Anything else fetches.
    ensures !IsFresh(s, now) ==> r.fetched
    // A payload replaces both variables together and is returned.
    ensures r.fetched && outcome.Fetched? ==>
      r.state == CacheState(Some(outcome.data), Some(outcome.at)) && r.result == Some(outcome.data)
    // A null payload is returned as null; the stale cache is not consulted.
    ensures r.fetched && outcome.FetchedNull? ==> r.state == s && r.result == None
    // A thrown fetch falls back to whatever the cache holds, stale or not.
    ensures r.fetched && outcome.Threw? ==> r.state == s && r.result == s.data
    // The pairing of payload and timestamp is kept.
    ensures Consistent(s) ==> Consistent(r.state)
  {
    if IsFresh(s, now) then
      Step(s, s.data, false)
    else
      match outcome
      case Fetched(d, at) => Step(CacheState(Some(d), Some(at)), Some(d), true)
      case FetchedNull => Step(s, None, true)
      case Threw => Step(s, s.data, true)
  }

  /** The freshness test is strict: a payload exactly one window old is re-fetched. */
  lemma WindowIsStrict(d: GlobalData, ts: int, outcome: FetchOutcome)
    requires ts != 0
    ensures Get(CacheState(Some(d), Some(ts)), ts + CacheDuration, outcome).fetched
    ensures !Get(CacheState(Some(d), Some(ts)), ts + CacheDuration - 1, outcome).fetched
  {
  }

  /** A cold start whose fetch fails, by throwing or by returning null, yields null. */
  lemma ColdStartFailureYieldsNull(now: int, outcome: FetchOutcome)
    requires !outcome.Fetched?
    ensures Get(Initial, now, outcome).result == None
    ensures Get(Initial, now, outcome).state == Initial
  {
  }

  // ---------------------------------------------------------------------------
  // Sequences of calls
  // ---------------------------------------------------------------------------

  /** One call: the clock reading and what the fetch would produce. */
  datatype Call = Call(now: int, outcome: FetchOutcome)

  datatype Trace = Trace(final: CacheState, results: seq<Option<GlobalData>>, fetches: nat)

  /** Calls made one after another, each seeing the state the previous one left. */
  function Run(s: CacheState, calls: seq<Call>): (t: Trace)
    ensures |t.results| == |calls|
    ensures t.fetches <= |calls|
    decreases |calls|
  {
    if |calls| == 0 then Trace(s, [], 0)
    else
      var step := Get(s, calls[0].now, calls[0].outcome);
      var rest := Run(step.state, calls[1..]);
      Trace(rest.final, [step.result] + rest.results, rest.fetches + if step.fetched then 1 else 0)
  }

  /** From the initial state, payload and timestamp are present or absent together after any calls. */
  lemma {:induction false} RunKeepsConsistency(s: CacheState, calls: seq<Call>)
    requires Consistent(s)
    ensures Consistent(Run(s, calls).final)
    decreases |calls|
  {
    if |calls| > 0 {
      RunKeepsConsistency(Get(s, calls[0].now, calls[0].outcome).state, calls[1..]);
    }
  }

  lemma InitialIsConsistent()
    ensures Consistent(Initial)
  {
  }

  /**
   * Calls that all fall inside the freshness window of a stored payload make
   * no fetch, all return that payload, and leave the cache as it was.
   */
  lemma {:induction false} WithinWindowNoFetch(d: GlobalData, ts: int, calls: seq<Call>)
    requires ts != 0
    requires forall k :: 0 <= k < |calls| ==> calls[k].now - ts < CacheDuration
    ensures Run(CacheState(Some(d), Some(ts)), calls).fetches == 0
    ensures Run(CacheState(Some(d), Some(ts)), calls).final == CacheState(Some(d), Some(ts))
    ensures forall k :: 0 <= k < |calls| ==> Run(CacheState(Some(d), Some(ts)), calls).results[k] == Some(d)
    decreases |calls|
  {
    if |calls| > 0 {
      var s := CacheState(Some(d), Some(ts));
      assert IsFresh(s, calls[0].now);
      WithinWindowNoFetch(d, ts, calls[1..]);
      var rest := Run(s, calls[1..]);
      assert Run(s, calls).results == [Some(d)] + rest.results;
    }
  }

  /**
   * A failed refresh does not advance the timestamp, so every later call
   * tries again.
   */
  lemma FailedRefreshRetries(s: CacheState, t1: int, t2: int, failure: FetchOutcome, next: FetchOutcome)
    requires !IsFresh(s, t1)
    requires t1 <= t2
    requires !failure.Fetched?
    ensures Get(s, t1, failure).fetched
    ensures Get(Get(s, t1, failure).state, t2, next).fetched
  {
  }

  /**
   * The scenario of a payload fetched at a non-zero time `t`: a call 30 s
   * later is served from the cache, a call 61 s later refreshes it, and a
   * call 61.5 s later is again served from the cache, so a fetch that would
   * fail then is never made: two fetches in all.
   */
  lemma RefreshScenario(t: int, acme: GlobalData, acme2: GlobalData)
    requires t != 0 && t + 61000 != 0
    ensures var calls := [
        Call(t, Fetched(acme, t)),
        Call(t + 30000, Threw),
        Call(t + 61000, Fetched(acme2, t + 61000)),
        Call(t + 61500, Threw)];
      var tr := Run(Initial, calls);
      && tr.results == [Some(acme), Some(acme), Some(acme2), Some(acme2)]
      && tr.fetches == 2
      && tr.final == CacheState(Some(acme2), Some(t + 61000))
  {
    var calls := [
      Call(t, Fetched(acme, t)),
      Call(t + 30000, Threw),
      Call(t + 61000, Fetched(acme2, t + 61000)),
      Call(t + 61500, Threw)];
    var s1 := CacheState(Some(acme), Some(t));
    var s3 := CacheState(Some(acme2), Some(t + 61000));
    assert Run(s3, calls[4..]) == Trace(s3, [], 0);
    assert Run(s3, calls[3..]) == Trace(s3, [Some(acme2)], 0);
    assert Run(s1, calls[2..]) == Trace(s3, [Some(acme2), Some(acme2)], 1);
    assert Run(s1, calls[1..]) == Trace(s3, [Some(acme), Some(acme2), Some(acme2)], 1);
  }

  /**
   * The same scenario with the first fetch at clock reading 0: the stored
   * timestamp 0 is falsy, so the call 30 s later fetches again and, when that
   * fetch throws, returns the payload of the first one.
   */
  lemma ZeroTimestampScenario(acme: GlobalData)
    ensures var tr := Run(Initial, [Call(0, Fetched(acme, 0)), Call(30000, Threw)]);
      tr.results == [Some(acme), Some(acme)] && tr.fetches == 2
  {
  }

  // ---------------------------------------------------------------------------
  // Accessors built on the cache
  // ---------------------------------------------------------------------------

  /** `getNavigation`: the payload's navigation, or `[]`. */
  function GetNavigation(s: CacheState, now: int, outcome: FetchOutcome): (r: (CacheState, seq<NavItem>))
    ensures r.0 == Get(s, now, outcome).state
    ensures Get(s, now, outcome).result.None? ==> r.1 == []
    ensures Get(s, now, outcome).result.Some? && Get(s, now, outcome).result.value.navigation.Some? ==>
      r.1 == Get(s, now, outcome).result.value.navigation.value
    ensures Get(s, now, outcome).result.Some? && Get(s, now, outcome).result.value.navigation.None? ==> r.1 == []
  {
    var step := Get(s, now, outcome);
    (step.state, if step.result.Some? then step.result.value.navigation.GetOr([]) else [])
  }

  /** `getFooterLinks`: the payload's footer categories, or `[]`. */
  function GetFooterLinks(s: CacheState, now: int, outcome: FetchOutcome): (r: (CacheState, seq<FooterCategory>))
    ensures r.0 == Get(s, now, outcome).state
    ensures Get(s, now, outcome).result.None? ==> r.1 == []
    ensures Get(s, now, outcome).result.Some? && Get(s, now, outcome).result.value.footerLinks.Some? ==>
      r.1 == Get(s, now, outcome).result.value.footerLinks.value
    ensures Get(s, now, outcome).result.Some? && Get(s, now, outcome).result.value.footerLinks.None? ==> r.1 == []
  {
    var step := Get(s, now, outcome);
    (step.state, if step.result.Some? then step.result.value.footerLinks.GetOr([]) else [])
  }

  /** `getSocialLinks`: the payload's social links, or `[]`. */
  function GetSocialLinks(s: CacheState, now: int, outcome: FetchOutcome): (r: (CacheState, seq<SocialLink>))
    ensures r.0 == Get(s, now, outcome).state
    ensures Get(s, now, outcome).result.None? ==> r.1 == []
    ensures Get(s, now, outcome).result.Some? && Get(s, now, outcome).result.value.socialLinks.Some? ==>
      r.1 == Get(s, now, outcome).result.value.socialLinks.value
    ensures Get(s, now, outcome).result.Some? && Get(s, now, outcome).result.value.socialLinks.None? ==> r.1 == []
  {
    var step := Get(s, now, outcome);
    (step.state, if step.result.Some? then step.result.value.socialLinks.GetOr([]) else [])
  }

  /** On a cold start whose fetch fails, all three accessors give `[]`. */
  lemma ColdStartFailureEmptyLists(now: int, outcome: FetchOutcome)
    requires !outcome.Fetched?
    ensures GetNavigation(Initial, now, outcome).1 == []
    ensures GetFooterLinks(Initial, now, outcome).1 == []
    ensures GetSocialLinks(Initial, now, outcome).1 == []
  {
  }

  /**
   * `preloadGlobalData`: warms the cache exactly as a call of `getGlobalData`
   * would and returns nothing; since `Get` absorbs a thrown fetch, no outcome
   * leads to an error.
   */
  function Preload(s: CacheState, now: int, outcome: FetchOutcome): (s': CacheState)
    ensures s' == Get(s, now, outcome).state
    ensures outcome.Threw? ==> s' == s
  {
    Get(s, now, outcome).state
  }
}
