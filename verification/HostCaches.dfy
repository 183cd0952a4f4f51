/** The two host caches: allowed CORS origins in the API and custom domains in the web app. */
module HostCaches {
  import opened Text
  import opened TtlCaches

  // ---- CORS origins ----------------------------------------------------

  const CORS_MAX_ENTRIES := 2000

  function CorsConfig(ttl: int): Config<bool> {
    Config(CORS_MAX_ENTRIES, ttl, true, None)
  }

  /** What a request gets at once: an answer, or a lookup of its host. */
  datatype Reply<V> = Now(value: V) | LookUp(host: string)

  /** `createCorsOrigin`; reading the host out of an origin is a function given from outside. */
  class CorsOrigin {
    const allowed: set<string>
    const ttl: int
    const hostOf: string -> Option<string>
    var cache: seq<Entry<bool>>

    constructor (allowed: set<string>, ttl: int, hostOf: string -> Option<string>)
      ensures cache == [] && this.allowed == allowed && this.ttl == ttl && this.hostOf == hostOf
    {
      this.allowed, this.ttl, this.hostOf, cache := allowed, ttl, hostOf, [];
    }

    /** The part of a request before any lookup: it reads the cache and leaves it alone. */
    method Ask(origin: string, now: int) returns (reply: Reply<bool>)
      ensures origin == "" || origin in allowed ==> reply == Now(true)
      ensures origin != "" && origin !in allowed && hostOf(origin).None? ==> reply == Now(false)
      ensures origin != "" && origin !in allowed && hostOf(origin).Some? ==>
                var host := hostOf(origin).value;
                var v := ServedFromCache(cache, now, host);
                reply == if v.Some? then Now(v.value) else LookUp(host)
    {
      if origin == "" || origin in allowed {
        return Now(true);
      }
      var host := hostOf(origin);
      if host.None? {
        return Now(false);
      }
      var cached := Get(cache, host.value);
      if cached.Some? && cached.value.exp > now {
        return Now(cached.value.value);
      }
      return LookUp(host.value);
    }

    /** `setCached`, called when the lookup that began at `start` answers. */
    method SetCached(host: string, allow: bool, start: int)
      modifies this`cache
      ensures cache == Store(CorsConfig(ttl), old(cache), host, allow, start)
    {
      cache := Delete(cache, host);
      if |cache| >= CORS_MAX_ENTRIES {
        cache := cache[1..];
      }
      cache := Put(cache, Entry(host, allow, start + ttl));
    }
  }

  /**
   * Over any run of the CORS cache: at most 2000 hosts, and no host is served as allowed
   * from the time to live after it stopped being verified.
   */
  lemma CorsRevokesWithinTtl(ttl: int, truth: (string, int) -> bool, states: seq<Machine<bool>>, steps: seq<Step>,
                             k: nat, host: string, revoked: int, s: Served<bool>)
    requires IsRun(CorsConfig(ttl), truth, states, steps) && k <= |steps|
    requires forall r :: revoked <= r ==> !truth(host, r)
    requires s in states[k].served && s.host == host && s.value
    ensures |states[k].cache| <= 2000 && s.at < revoked + ttl
  {
    hide Next, IsStep;
    EveryRunIsGood(CorsConfig(ttl), truth, states, steps, k);
    RevokedWithinTtl(CorsConfig(ttl), truth, states, steps, k, host, true, revoked, s);
  }

  /** Over any run of the CORS cache, whatever it holds was answered: a failed lookup leaves nothing. */
  lemma CorsHoldsAnswers(ttl: int, truth: (string, int) -> bool, states: seq<Machine<bool>>, steps: seq<Step>,
                         k: nat, e: Entry<bool>)
    requires IsRun(CorsConfig(ttl), truth, states, steps) && k <= |steps| && e in states[k].cache
    ensures exists r :: e.exp - ttl <= r <= states[k].now && truth(e.host, r) == e.value
  {
    hide Next, IsStep, IsRun;
    EntriesAreAnswers(CorsConfig(ttl), truth, states, steps, k, e);
  }

  // ---- custom domains --------------------------------------------------

  datatype Resolution = Resolution(slug: Option<string>, hasExternalSite: bool)

  const UNRESOLVED := Resolution(None, false)
  const DOMAIN_TTL_MS := 60_000
  const DOMAIN_CACHE_MAX := 2_000

  /** A failed lookup is stored as an unresolved host. */
  function DomainConfig(): Config<Resolution> {
    Config(DOMAIN_CACHE_MAX, DOMAIN_TTL_MS, false, Some(UNRESOLVED))
  }

  /** `resolveSlug` and its `domainCache`. */
  class DomainCache {
    var cache: seq<Entry<Resolution>>

    constructor ()
      ensures cache == []
    {
      cache := [];
    }

    method Ask(host: string, now: int) returns (reply: Reply<Resolution>)
      ensures var v := ServedFromCache(cache, now, host);
              reply == if v.Some? then Now(v.value) else LookUp(host)
    {
      var cached := Get(cache, host);
      if cached.Some? && cached.value.exp > now {
        return Now(cached.value.value);
      }
      return LookUp(host);
    }

    /** The end of a lookup that began at `start`; no answer counts as an unresolved host. */
    method Resolve(host: string, answer: Option<Resolution>, start: int) returns (value: Resolution)
      modifies this`cache
      ensures value == if answer.Some? then answer.value else UNRESOLVED
      ensures cache == Store(DomainConfig(), old(cache), host, value, start)
    {
      value := if answer.Some? then answer.value else UNRESOLVED;
      if |cache| >= DOMAIN_CACHE_MAX {
        cache := cache[1..];
      }
      cache := Put(cache, Entry(host, value, start + DOMAIN_TTL_MS));
    }
  }

  /**
   * Over any run of the domain cache: at most 2000 hosts, and no resolution, unresolved included,
   * is served from the minute after the source stopped giving it, unless it is the unresolved one
   * and a lookup of that host that began less than a minute before has failed.
   */
  lemma DomainFollowsWithinAMinute(truth: (string, int) -> Resolution, states: seq<Machine<Resolution>>,
                                   steps: seq<Step>, k: nat, host: string, old': Resolution, moved: int,
                                   s: Served<Resolution>)
    requires IsRun(DomainConfig(), truth, states, steps) && k <= |steps|
    requires forall r :: moved <= r ==> truth(host, r) != old'
    requires s in states[k].served && s.host == host && s.value == old'
    ensures |states[k].cache| <= 2000
    ensures s.at < moved + 60_000
            || (old' == UNRESOLVED && FailedAfter(states[k].finished, host, s.at - 60_000))
  {
    hide Next, IsStep;
    EveryRunIsGood(DomainConfig(), truth, states, steps, k);
    RevokedWithinTtl(DomainConfig(), truth, states, steps, k, host, old', moved, s);
  }

  /** A domain that resolves, and whose lookups no longer fail, is not served as unresolved from a minute on. */
  lemma ResolvedDomainIsServed(truth: (string, int) -> Resolution, states: seq<Machine<Resolution>>,
                               steps: seq<Step>, k: nat, host: string, since: int, s: Served<Resolution>)
    requires IsRun(DomainConfig(), truth, states, steps) && k <= |steps|
    requires forall r :: since <= r ==> truth(host, r) != UNRESOLVED
    requires !FailedAfter(states[k].finished, host, since)
    requires s in states[k].served && s.host == host && s.value == UNRESOLVED
    ensures s.at < since + 60_000
  {
    hide Next, IsStep, IsRun;
    DomainFollowsWithinAMinute(truth, states, steps, k, host, UNRESOLVED, since, s);
  }

  /**
   * For a domain that the source always resolves: the cache holds it as unresolved, and serves it so
   * while the entry lasts, if and only if the last finished lookup of it failed.
   */
  lemma UnresolvedExactlyAfterFailure(truth: (string, int) -> Resolution, states: seq<Machine<Resolution>>,
                                      steps: seq<Step>, k: nat, host: string)
    requires IsRun(DomainConfig(), truth, states, steps) && k <= |steps| && Has(states[k].cache, host)
    requires forall r :: truth(host, r) != UNRESOLVED
    ensures var m := states[k];
            var e, last := Get(m.cache, host).value, LastVerdict(DomainConfig(), m.finished, host);
            && last.Some?
            && (e.value == UNRESOLVED <==> last.value.Failed?)
            && (ServedFromCache(m.cache, m.now, host) == Some(UNRESOLVED)
                <==> last.value.Failed? && m.now < last.value.lookup.start + 60_000)
  {
    assert |states| == |steps| + 1;
    hide IsRun, LastVerdict;
    HeldIsLastVerdict(DomainConfig(), truth, states, steps, k, host);
  }

  /** A lookup asked at 0 fails, and the domain, which resolves all along, is served as unresolved. */
  lemma ServedUnresolvedExample(truth: (string, int) -> Resolution, host: string, steps: seq<Step>)
    returns (states: seq<Machine<Resolution>>)
    requires forall r :: truth(host, r) != UNRESOLVED
    requires steps == [Ask(host), Fail(0), Ask(host)]
    ensures IsRun(DomainConfig(), truth, states, steps)
    ensures states[3].served == [Served(host, UNRESOLVED, 0)]
  {
    var l := Lookup(host, 0);
    var e := Entry(host, UNRESOLVED, 60_000);
    var start: Machine<Resolution> := Machine([], [], 0, [], []);
    var asked := start.(inFlight := [l]);
    var failed := Machine([e], [], 0, [], [Failed(l, 0)]);
    states := [start, asked, failed, failed.(served := [Served(host, UNRESOLVED, 0)])];
    assert Store(DomainConfig(), [], host, UNRESOLVED, 0) == [e];
    assert Get([e], host) == Some(e);
    hide Store, Get;
    assert IsStep(start, steps[0]) && Next(DomainConfig(), truth, start, steps[0]) == asked;
    assert IsStep(asked, steps[1]) && Next(DomainConfig(), truth, asked, steps[1]) == failed;
    assert IsStep(failed, steps[2]) && Next(DomainConfig(), truth, failed, steps[2]) == states[3];
  }

  // ---- a full cache ----------------------------------------------------

  function NumberedHosts(): (cache: seq<Entry<Resolution>>)
    ensures |cache| == DOMAIN_CACHE_MAX
    ensures forall k: nat :: k < DOMAIN_CACHE_MAX ==> cache[k].host == Decimal(k)
  {
    seq(DOMAIN_CACHE_MAX, k requires 0 <= k < DOMAIN_CACHE_MAX => Entry(Decimal(k), UNRESOLVED, 0))
  }

  /** A full domain cache of the hosts "0" to "1999": refreshing "1" drops "0". */
  lemma RefreshDropsOldestExample(value: Resolution, start: int)
    ensures var cache := NumberedHosts();
            var after := Store(DomainConfig(), cache, Decimal(1), value, start);
            && IsCache(DomainConfig(), cache) && Has(cache, Decimal(1)) && Has(cache, Decimal(0))
            && !Has(after, Decimal(0))
  {
    hide Decimal, Store, Has;
    var cache := NumberedHosts();
    forall i: nat, j: nat | i < j < |cache| ensures cache[i].host != cache[j].host {
      DecimalRoundTrip(i);
      DecimalRoundTrip(j);
    }
    HasIndex(cache, 0);
    HasIndex(cache, 1);
    OldestIsDropped(DomainConfig(), cache, Decimal(1), value, start);
  }

  lemma HasIndex<V>(cache: seq<Entry<V>>, k: nat)
    requires k < |cache|
    ensures Has(cache, cache[k].host)
  {
  }
}
