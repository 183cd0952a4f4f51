/**
 * Bounded caches with a time to live, filled by lookups that answer later and in any order.
 * A cache lists its entries as a JavaScript Map does, in insertion order.
 */
module TtlCaches {
  import opened Text

  datatype Entry<V> = Entry(host: string, value: V, exp: int)

  /**
   * How a cache stores: its limits, whether it deletes the host first (so that it goes to the
   * end), and the value it stores for a failed lookup, if any.
   */
  datatype Config<V> = Config(max: nat, ttl: int, deletesFirst: bool, onFailure: Option<V>)

  // ---- the Map ---------------------------------------------------------

  function IndexOfHost<V>(cache: seq<Entry<V>>, host: string): (i: nat)
    ensures i <= |cache| && (i < |cache| ==> cache[i].host == host)
    ensures forall k :: 0 <= k < i ==> cache[k].host != host
  {
    if cache == [] || cache[0].host == host then 0 else 1 + IndexOfHost(cache[1..], host)
  }

  predicate Has<V>(cache: seq<Entry<V>>, host: string) {
    IndexOfHost(cache, host) < |cache|
  }

  function Get<V>(cache: seq<Entry<V>>, host: string): Option<Entry<V>> {
    var i := IndexOfHost(cache, host);
    if i < |cache| then Some(cache[i]) else None
  }

  function Delete<V>(cache: seq<Entry<V>>, host: string): seq<Entry<V>> {
    var i := IndexOfHost(cache, host);
    if i < |cache| then cache[..i] + cache[i + 1..] else cache
  }

  /** `set`: a known key keeps its place. */
  function Put<V>(cache: seq<Entry<V>>, e: Entry<V>): seq<Entry<V>> {
    var i := IndexOfHost(cache, e.host);
    if i < |cache| then cache[i := e] else cache + [e]
  }

  /** Storing a value for a lookup that began at `start`. */
  function Store<V>(cfg: Config<V>, cache: seq<Entry<V>>, host: string, value: V, start: int): seq<Entry<V>> {
    var kept := if cfg.deletesFirst then Delete(cache, host) else cache;
    var room := if |kept| >= cfg.max && kept != [] then kept[1..] else kept;
    Put(room, Entry(host, value, start + cfg.ttl))
  }

  ghost predicate OneEntryAHost<V>(cache: seq<Entry<V>>) {
    forall i, j :: 0 <= i < j < |cache| ==> cache[i].host != cache[j].host
  }

  ghost predicate IsCache<V>(cfg: Config<V>, cache: seq<Entry<V>>) {
    |cache| <= cfg.max && OneEntryAHost(cache)
  }

  lemma DeleteKeeps<V>(cache: seq<Entry<V>>, host: string)
    requires OneEntryAHost(cache)
    ensures var d := Delete(cache, host);
            && OneEntryAHost(d) && !Has(d, host)
            && |d| == if Has(cache, host) then |cache| - 1 else |cache|
  {
    var i, d := IndexOfHost(cache, host), Delete(cache, host);
    if i < |cache| {
      assert forall k :: 0 <= k < |d| ==> d[k] == cache[if k < i then k else k + 1];
    }
  }

  lemma PutKeeps<V>(cache: seq<Entry<V>>, e: Entry<V>)
    requires OneEntryAHost(cache)
    ensures OneEntryAHost(Put(cache, e))
    ensures |Put(cache, e)| == if Has(cache, e.host) then |cache| else |cache| + 1
  {
  }

  /** Storing keeps the bound and one entry a host. */
  lemma StoreIsBounded<V>(cfg: Config<V>, cache: seq<Entry<V>>, host: string, value: V, start: int)
    requires IsCache(cfg, cache) && 0 < cfg.max
    ensures IsCache(cfg, Store(cfg, cache, host, value, start))
  {
    hide Delete, Put, Has, OneEntryAHost;
    DeleteKeeps(cache, host);
    var kept := if cfg.deletesFirst then Delete(cache, host) else cache;
    var room := if |kept| >= cfg.max && kept != [] then kept[1..] else kept;
    TailKeeps(kept);
    PutKeeps(room, Entry(host, value, start + cfg.ttl));
    if cfg.deletesFirst {
      AbsentFromTail(kept, host);
    }
  }

  lemma TailKeeps<V>(cache: seq<Entry<V>>)
    requires OneEntryAHost(cache)
    ensures cache != [] ==> OneEntryAHost(cache[1..])
  {
  }

  lemma AbsentFromTail<V>(cache: seq<Entry<V>>, host: string)
    requires !Has(cache, host)
    ensures cache != [] ==> !Has(cache[1..], host)
  {
  }

  /** Every entry after storing is an old one or the one stored. */
  lemma StoreAddsOne<V>(cfg: Config<V>, cache: seq<Entry<V>>, host: string, value: V, start: int, e: Entry<V>)
    requires e in Store(cfg, cache, host, value, start)
    ensures e in cache || e == Entry(host, value, start + cfg.ttl)
  {
    var kept := if cfg.deletesFirst then Delete(cache, host) else cache;
    assert forall x :: x in kept ==> x in cache;
    var room := if |kept| >= cfg.max && kept != [] then kept[1..] else kept;
    assert forall x :: x in room ==> x in kept;
  }

  /** No other host loses its place in the cache. */
  ghost predicate KeepsOthers<V>(before: seq<Entry<V>>, after: seq<Entry<V>>, host: string) {
    forall h :: h != host && Has(before, h) ==> Has(after, h)
  }

  /** A cache that deletes first never evicts anyone when it refreshes a host that it has. */
  lemma RefreshEvictsNobody<V>(cfg: Config<V>, cache: seq<Entry<V>>, host: string, value: V, start: int)
    requires IsCache(cfg, cache) && cfg.deletesFirst && Has(cache, host)
    ensures KeepsOthers(cache, Store(cfg, cache, host, value, start), host)
  {
    var i, d, e := IndexOfHost(cache, host), Delete(cache, host), Entry(host, value, start + cfg.ttl);
    DeleteKeeps(cache, host);
    assert Store(cfg, cache, host, value, start) == d + [e];
    hide OneEntryAHost, Put, Store;
    forall h | h != host && Has(cache, h) ensures Has(d + [e], h) {
      var k := IndexOfHost(cache, h);
      assert (d + [e])[if k < i then k else k - 1].host == h;
    }
  }

  /**
   * A cache that does not delete first evicts somebody else on a refresh exactly when it is
   * full and the host is not its oldest.
   */
  lemma RefreshEvictsExactlyWhenFull<V>(cfg: Config<V>, cache: seq<Entry<V>>, host: string, value: V, start: int)
    requires IsCache(cfg, cache) && !cfg.deletesFirst && Has(cache, host)
    ensures KeepsOthers(cache, Store(cfg, cache, host, value, start), host)
            <==> |cache| < cfg.max || cache[0].host == host
  {
    var after := Store(cfg, cache, host, value, start);
    if |cache| < cfg.max || cache[0].host == host {
      forall h | h != host && Has(cache, h) ensures Has(after, h) {
        var k := IndexOfHost(cache, h);
        assert after[if |cache| < cfg.max then k else k - 1].host == h;
      }
    } else {
      OldestIsDropped(cfg, cache, host, value, start);
      assert Has(cache, cache[0].host);
    }
  }

  lemma OldestIsDropped<V>(cfg: Config<V>, cache: seq<Entry<V>>, host: string, value: V, start: int)
    requires IsCache(cfg, cache) && !cfg.deletesFirst && Has(cache, host)
    requires |cache| == cfg.max && cache[0].host != host
    ensures !Has(Store(cfg, cache, host, value, start), cache[0].host)
  {
    var after := Store(cfg, cache, host, value, start);
    assert forall k :: 0 <= k < |after| ==> after[k].host != cache[0].host;
  }

  // ---- lookups in flight -----------------------------------------------

  datatype Lookup = Lookup(host: string, start: int)
  datatype Served<V> = Served(host: string, value: V, at: int)

  /** How a lookup ended, at `at`: with what the source said at `readAt`, or without an answer. */
  datatype Finished<V> =
    | Answered(lookup: Lookup, value: V, readAt: int, at: int)
    | Failed(lookup: Lookup, at: int)

  /**
   * The cache, the lookups that have not answered yet, the clock, what the cache has served and
   * how every lookup has ended.
   */
  datatype Machine<V> = Machine(
    cache: seq<Entry<V>>, inFlight: seq<Lookup>, now: int, served: seq<Served<V>>, finished: seq<Finished<V>>)

  /** What can happen next, in any order. An answer tells what the source said at `readAt`. */
  datatype Step = Tick(passed: nat) | Ask(host: string) | Answer(i: nat, readAt: int) | Fail(i: nat)

  predicate IsStep<V>(m: Machine<V>, s: Step) {
    match s
    case Tick(_) => true
    case Ask(_) => true
    case Answer(i, readAt) => i < |m.inFlight| && m.inFlight[i].start <= readAt <= m.now
    case Fail(i) => i < |m.inFlight|
  }

  function Without(lookups: seq<Lookup>, i: nat): seq<Lookup>
    requires i < |lookups|
  {
    lookups[..i] + lookups[i + 1..]
  }

  /** A request is served by an entry that has not expired. */
  function ServedFromCache<V>(cache: seq<Entry<V>>, now: int, host: string): Option<V> {
    var e := Get(cache, host);
    if e.Some? && e.value.exp > now then Some(e.value.value) else None
  }

  /** What is served for a host is the value of its entry, until the entry expires. */
  lemma ServedExactly<V>(cache: seq<Entry<V>>, now: int, host: string, v: V)
    requires OneEntryAHost(cache)
    ensures ServedFromCache(cache, now, host) == Some(v)
            <==> exists e :: e in cache && e.host == host && e.value == v && now < e.exp
  {
    var i := IndexOfHost(cache, host);
    if e :| e in cache && e.host == host {
      var k :| 0 <= k < |cache| && cache[k] == e;
      assert k == i;
    }
  }

  /** A value stored is served until its time to live is over, counted from when its lookup began. */
  lemma StoredIsServed<V>(cfg: Config<V>, cache: seq<Entry<V>>, host: string, value: V, start: int, now: int)
    ensures ServedFromCache(Store(cfg, cache, host, value, start), now, host)
            == if now < start + cfg.ttl then Some(value) else None
  {
    var kept := if cfg.deletesFirst then Delete(cache, host) else cache;
    var room := if |kept| >= cfg.max && kept != [] then kept[1..] else kept;
    hide Store, Delete;
    assert Store(cfg, cache, host, value, start) == Put(room, Entry(host, value, start + cfg.ttl)) by {
      StoreIs(cfg, cache, host, value, start);
    }
    PutIsFound(room, Entry(host, value, start + cfg.ttl));
  }

  lemma StoreIs<V>(cfg: Config<V>, cache: seq<Entry<V>>, host: string, value: V, start: int)
    ensures var kept := if cfg.deletesFirst then Delete(cache, host) else cache;
            Store(cfg, cache, host, value, start)
            == Put(if |kept| >= cfg.max && kept != [] then kept[1..] else kept, Entry(host, value, start + cfg.ttl))
  {
  }

  lemma PutIsFound<V>(cache: seq<Entry<V>>, e: Entry<V>)
    ensures Get(Put(cache, e), e.host) == Some(e)
  {
    var i, p := IndexOfHost(cache, e.host), Put(cache, e);
    assert i < |p| && p[i] == e;
    assert forall k :: 0 <= k < i ==> p[k].host != e.host;
    assert IndexOfHost(p, e.host) == i;
  }

  /** Storing in a cache with room changes nothing of what is served for the other hosts. */
  lemma RoomKeepsOthers<V>(cfg: Config<V>, cache: seq<Entry<V>>, host: string, value: V, start: int,
                           other: string, now: int)
    requires OneEntryAHost(cache) && |cache| < cfg.max && other != host
    ensures ServedFromCache(Store(cfg, cache, host, value, start), now, other) == ServedFromCache(cache, now, other)
  {
    var kept := if cfg.deletesFirst then Delete(cache, host) else cache;
    DeleteKeeps(cache, host);
    hide Store, Put;
    StoreIs(cfg, cache, host, value, start);
    DeleteFindsOther(cache, host, other);
    PutFindsOther(kept, Entry(host, value, start + cfg.ttl), other);
  }

  lemma DeleteFindsOther<V>(cache: seq<Entry<V>>, host: string, other: string)
    requires OneEntryAHost(cache) && other != host
    ensures Get(Delete(cache, host), other) == Get(cache, other)
  {
    var i, j := IndexOfHost(cache, host), IndexOfHost(cache, other);
    var d := Delete(cache, host);
    if i < |cache| {
      assert forall k :: 0 <= k < |d| ==> d[k] == cache[if k < i then k else k + 1];
      assert j < |cache| ==> d[if j < i then j else j - 1] == cache[j];
    }
  }

  lemma PutFindsOther<V>(cache: seq<Entry<V>>, e: Entry<V>, other: string)
    requires other != e.host
    ensures Get(Put(cache, e), other) == Get(cache, other)
  {
    var j, p := IndexOfHost(cache, other), Put(cache, e);
    assert forall k :: 0 <= k < |cache| && cache[k].host == other ==> p[k] == cache[k];
    assert forall k :: 0 <= k < j ==> p[k].host != other;
  }

  /** The value that a finished lookup leaves in the cache, if any. */
  function Verdict<V>(cfg: Config<V>, f: Finished<V>): Option<V> {
    if f.Answered? then Some(f.value) else cfg.onFailure
  }

  /** A lookup ends: it is logged, and its verdict stored. */
  function Finish<V>(cfg: Config<V>, m: Machine<V>, i: nat, f: Finished<V>): Machine<V>
    requires i < |m.inFlight|
  {
    var v := Verdict(cfg, f);
    m.(inFlight := Without(m.inFlight, i), finished := m.finished + [f],
       cache := if v.Some? then Store(cfg, m.cache, f.lookup.host, v.value, f.lookup.start) else m.cache)
  }

  function Next<V>(cfg: Config<V>, truth: (string, int) -> V, m: Machine<V>, s: Step): Machine<V>
    requires IsStep(m, s)
  {
    match s
    case Tick(passed) => m.(now := m.now + passed)
    case Ask(host) =>
      var v := ServedFromCache(m.cache, m.now, host);
      if v.Some? then m.(served := m.served + [Served(host, v.value, m.now)])
      else m.(inFlight := m.inFlight + [Lookup(host, m.now)])
    case Answer(i, readAt) =>
      var l := m.inFlight[i];
      Finish(cfg, m, i, Answered(l, truth(l.host, readAt), readAt, m.now))
    case Fail(i) => Finish(cfg, m, i, Failed(m.inFlight[i], m.now))
  }

  ghost predicate IsRun<V(!new)>(cfg: Config<V>, truth: (string, int) -> V, states: seq<Machine<V>>, steps: seq<Step>) {
    && |states| == |steps| + 1
    && states[0].cache == [] && states[0].inFlight == [] && states[0].served == [] && states[0].finished == []
    && forall k :: 0 <= k < |steps| ==>
         IsStep(states[k], steps[k]) && states[k + 1] == Next(cfg, truth, states[k], steps[k])
  }

  // ---- every verdict comes from a lookup -------------------------------

  /** The last lookup of a host that ended with a verdict. */
  function LastVerdict<V>(cfg: Config<V>, finished: seq<Finished<V>>, host: string): (r: Option<Finished<V>>)
    ensures r.Some? ==> r.value in finished && r.value.lookup.host == host && Verdict(cfg, r.value).Some?
  {
    if finished == [] then None
    else
      var last := finished[|finished| - 1];
      if last.lookup.host == host && Verdict(cfg, last).Some? then Some(last)
      else LastVerdict(cfg, finished[..|finished| - 1], host)
  }

  /** The lookup behind an entry: of its host, ended with its value, begun a time to live before it expires. */
  ghost predicate IsSource<V>(cfg: Config<V>, f: Finished<V>, e: Entry<V>) {
    f.lookup.host == e.host && Verdict(cfg, f) == Some(e.value) && f.lookup.start + cfg.ttl == e.exp
  }

  /** The lookup behind a served verdict: begun less than the time to live before, and over by then. */
  ghost predicate IsBehind<V>(cfg: Config<V>, f: Finished<V>, s: Served<V>) {
    && f.lookup.host == s.host && Verdict(cfg, f) == Some(s.value)
    && s.at - cfg.ttl < f.lookup.start <= f.at <= s.at
  }

  /** The last lookup of the host that left a verdict is the one behind the entry. */
  ghost predicate HasSource<V>(cfg: Config<V>, finished: seq<Finished<V>>, e: Entry<V>) {
    var last := LastVerdict(cfg, finished, e.host);
    last.Some? && IsSource(cfg, last.value, e)
  }

  ghost predicate HasBehind<V>(cfg: Config<V>, finished: seq<Finished<V>>, s: Served<V>) {
    exists k :: 0 <= k < |finished| && IsBehind(cfg, finished[k], s)
  }

  /** A finished lookup ended after it began, and an answer is what the source said in between. */
  ghost predicate IsTrue<V>(truth: (string, int) -> V, f: Finished<V>, now: int) {
    && f.lookup.start <= f.at <= now
    && (f.Answered? ==> f.lookup.start <= f.readAt <= f.at && f.value == truth(f.lookup.host, f.readAt))
  }

  ghost predicate Good<V>(cfg: Config<V>, truth: (string, int) -> V, m: Machine<V>) {
    && IsCache(cfg, m.cache)
    && (forall k :: 0 <= k < |m.cache| ==> HasSource(cfg, m.finished, m.cache[k]))
    && (forall k :: 0 <= k < |m.served| ==> HasBehind(cfg, m.finished, m.served[k]))
    && (forall k :: 0 <= k < |m.finished| ==> IsTrue(truth, m.finished[k], m.now))
    && forall k :: 0 <= k < |m.inFlight| ==> m.inFlight[k].start <= m.now
  }

  lemma OneMoreFinished<V>(cfg: Config<V>, finished: seq<Finished<V>>, f: Finished<V>, host: string)
    ensures LastVerdict(cfg, finished + [f], host)
         == if f.lookup.host == host && Verdict(cfg, f).Some? then Some(f) else LastVerdict(cfg, finished, host)
  {
    hide Verdict;
    assert (finished + [f])[..|finished|] == finished;
  }

  lemma BehindStays<V>(cfg: Config<V>, finished: seq<Finished<V>>, f: Finished<V>, s: Served<V>)
    requires HasBehind(cfg, finished, s)
    ensures HasBehind(cfg, finished + [f], s)
  {
    hide IsBehind;
    var k :| 0 <= k < |finished| && IsBehind(cfg, finished[k], s);
    assert (finished + [f])[k] == finished[k];
  }

  /** After storing, the host's entry is the one stored. */
  lemma StoredIsNew<V>(cfg: Config<V>, cache: seq<Entry<V>>, host: string, value: V, start: int, e: Entry<V>)
    requires IsCache(cfg, cache) && 0 < cfg.max && e in Store(cfg, cache, host, value, start) && e.host == host
    ensures e == Entry(host, value, start + cfg.ttl)
  {
    StoreIsBounded(cfg, cache, host, value, start);
    var after, new' := Store(cfg, cache, host, value, start), Entry(host, value, start + cfg.ttl);
    StoredIsThere(cfg, cache, host, value, start);
    hide Store;
    var i :| 0 <= i < |after| && after[i] == e;
    var j :| 0 <= j < |after| && after[j] == new';
    assert i != j ==> after[i].host != after[j].host;
  }

  lemma StoredIsThere<V>(cfg: Config<V>, cache: seq<Entry<V>>, host: string, value: V, start: int)
    ensures Entry(host, value, start + cfg.ttl) in Store(cfg, cache, host, value, start)
  {
    var kept := if cfg.deletesFirst then Delete(cache, host) else cache;
    var room := if |kept| >= cfg.max && kept != [] then kept[1..] else kept;
    var e := Entry(host, value, start + cfg.ttl);
    var i := IndexOfHost(room, host);
    hide Delete;
    assert Put(room, e)[i] == e;
  }

  lemma StoredHasSource<V>(cfg: Config<V>, truth: (string, int) -> V, m: Machine<V>, i: nat, f: Finished<V>,
                           e: Entry<V>)
    requires Good(cfg, truth, m) && i < |m.inFlight| && 0 < cfg.max && e in Finish(cfg, m, i, f).cache
    ensures HasSource(cfg, m.finished + [f], e)
  {
    hide Store, IsSource, IsCache, IsTrue, HasBehind, LastVerdict;
    var v := Verdict(cfg, f);
    OneMoreFinished(cfg, m.finished, f, e.host);
    if v.Some? && f.lookup.host == e.host {
      StoredIsNew(cfg, m.cache, f.lookup.host, v.value, f.lookup.start, e);
      assert IsSource(cfg, f, e) by {
        ThatIsSource(cfg, f, e);
      }
    } else {
      if v.Some? {
        StoreAddsOne(cfg, m.cache, f.lookup.host, v.value, f.lookup.start, e);
      }
      var k :| 0 <= k < |m.cache| && m.cache[k] == e;
    }
  }

  lemma ThatIsSource<V>(cfg: Config<V>, f: Finished<V>, e: Entry<V>)
    requires Verdict(cfg, f).Some? && e == Entry(f.lookup.host, Verdict(cfg, f).value, f.lookup.start + cfg.ttl)
    ensures IsSource(cfg, f, e)
  {
  }

  lemma FinishIsBounded<V>(cfg: Config<V>, m: Machine<V>, i: nat, f: Finished<V>)
    requires IsCache(cfg, m.cache) && i < |m.inFlight| && 0 < cfg.max
    ensures IsCache(cfg, Finish(cfg, m, i, f).cache)
  {
    hide IsCache, Store;
    var v := Verdict(cfg, f);
    if v.Some? {
      StoreIsBounded(cfg, m.cache, f.lookup.host, v.value, f.lookup.start);
    }
  }

  lemma FinishStaysGood<V>(cfg: Config<V>, truth: (string, int) -> V, m: Machine<V>, i: nat, f: Finished<V>)
    requires Good(cfg, truth, m) && i < |m.inFlight| && IsTrue(truth, f, m.now) && 0 < cfg.max
    ensures Good(cfg, truth, Finish(cfg, m, i, f))
  {
    hide IsTrue, IsCache, HasSource, HasBehind, LastVerdict, Store, Verdict;
    var after := Finish(cfg, m, i, f);
    FinishIsBounded(cfg, m, i, f);
    forall k | 0 <= k < |after.cache| ensures HasSource(cfg, after.finished, after.cache[k]) {
      StoredHasSource(cfg, truth, m, i, f, after.cache[k]);
    }
    forall k | 0 <= k < |after.served| ensures HasBehind(cfg, after.finished, after.served[k]) {
      BehindStays(cfg, m.finished, f, after.served[k]);
    }
  }

  lemma ServedHasBehind<V>(cfg: Config<V>, truth: (string, int) -> V, m: Machine<V>, host: string)
    requires Good(cfg, truth, m) && ServedFromCache(m.cache, m.now, host).Some?
    ensures HasBehind(cfg, m.finished, Served(host, ServedFromCache(m.cache, m.now, host).value, m.now))
  {
    hide IsCache, HasBehind, IsTrue, Verdict;
    var i := IndexOfHost(m.cache, host);
    var e := m.cache[i];
    assert HasSource(cfg, m.finished, e);
    var k :| 0 <= k < |m.finished| && m.finished[k] == LastVerdict(cfg, m.finished, host).value;
    assert IsTrue(truth, m.finished[k], m.now);
    ThatIsBehind(cfg, truth, m, k, e);
  }

  lemma ThatIsBehind<V>(cfg: Config<V>, truth: (string, int) -> V, m: Machine<V>, k: nat, e: Entry<V>)
    requires k < |m.finished| && IsSource(cfg, m.finished[k], e) && e.exp > m.now
    requires IsTrue(truth, m.finished[k], m.now)
    ensures HasBehind(cfg, m.finished, Served(e.host, e.value, m.now))
  {
    assert IsBehind(cfg, m.finished[k], Served(e.host, e.value, m.now));
  }

  lemma AskStaysGood<V>(cfg: Config<V>, truth: (string, int) -> V, m: Machine<V>, host: string)
    requires Good(cfg, truth, m)
    ensures Good(cfg, truth, Next(cfg, truth, m, Ask(host)))
  {
    hide IsTrue, IsCache, HasSource, HasBehind, ServedFromCache;
    if ServedFromCache(m.cache, m.now, host).Some? {
      ServedHasBehind(cfg, truth, m, host);
    }
  }

  lemma NextStaysGood<V>(cfg: Config<V>, truth: (string, int) -> V, m: Machine<V>, s: Step)
    requires Good(cfg, truth, m) && IsStep(m, s) && 0 < cfg.max
    ensures Good(cfg, truth, Next(cfg, truth, m, s))
  {
    hide IsCache, HasSource, HasBehind, Finish;
    match s {
      case Tick(passed) =>
      case Ask(host) => AskStaysGood(cfg, truth, m, host);
      case Answer(i, readAt) =>
        var l := m.inFlight[i];
        FinishStaysGood(cfg, truth, m, i, Answered(l, truth(l.host, readAt), readAt, m.now));
      case Fail(i) =>
        FinishStaysGood(cfg, truth, m, i, Failed(m.inFlight[i], m.now));
    }
  }

  /**
   * Over every interleaving: the cache stays within its bound; every verdict that it holds is how
   * the last lookup of that host ended, and every one it has served how a lookup of that host ended
   * that began less than the time to live before, the verdict for failures included.
   */
  lemma {:induction false} EveryRunIsGood<V(!new)>(cfg: Config<V>, truth: (string, int) -> V,
                                                  states: seq<Machine<V>>, steps: seq<Step>, k: nat)
    requires IsRun(cfg, truth, states, steps) && k <= |steps| && 0 < cfg.max
    ensures Good(cfg, truth, states[k])
  {
    hide Good, Next, IsStep;
    if k == 0 {
      EmptyIsGood(cfg, truth, states[0]);
    } else {
      EveryRunIsGood(cfg, truth, states, steps, k - 1);
      NextStaysGood(cfg, truth, states[k - 1], steps[k - 1]);
    }
  }

  lemma EmptyIsGood<V>(cfg: Config<V>, truth: (string, int) -> V, m: Machine<V>)
    requires m.cache == [] && m.served == [] && m.finished == [] && m.inFlight == []
    ensures Good(cfg, truth, m)
  {
  }

  /** A lookup of `host` that began after `after` has failed. */
  ghost predicate FailedAfter<V>(finished: seq<Finished<V>>, host: string, after: int) {
    exists k :: 0 <= k < |finished| && finished[k].Failed? && finished[k].lookup.host == host
                && after < finished[k].lookup.start
  }

  /**
   * A value that the source has stopped giving is no longer served once the time to live has
   * passed, unless it is the one for failures and a lookup has just failed.
   */
  lemma RevokedWithinTtl<V(!new)>(cfg: Config<V>, truth: (string, int) -> V, states: seq<Machine<V>>, steps: seq<Step>,
                                 k: nat, host: string, value: V, revoked: int, s: Served<V>)
    requires IsRun(cfg, truth, states, steps) && k <= |steps| && 0 < cfg.max
    requires forall r :: revoked <= r ==> truth(host, r) != value
    requires s in states[k].served && s.host == host && s.value == value
    ensures s.at < revoked + cfg.ttl
            || (cfg.onFailure == Some(value) && FailedAfter(states[k].finished, host, s.at - cfg.ttl))
  {
    assert |states| == |steps| + 1;
    hide Next, IsStep, IsRun;
    EveryRunIsGood(cfg, truth, states, steps, k);
    var m := states[k];
    var i :| 0 <= i < |m.served| && m.served[i] == s;
    hide IsCache, HasSource;
    assert HasBehind(cfg, m.finished, s);
    var j :| 0 <= j < |m.finished| && IsBehind(cfg, m.finished[j], s);
    assert IsTrue(truth, m.finished[j], m.now);
  }

  /** Where failures are not stored, every entry in any run is an answer of the source. */
  lemma EntriesAreAnswers<V(!new)>(cfg: Config<V>, truth: (string, int) -> V, states: seq<Machine<V>>, steps: seq<Step>,
                                  k: nat, e: Entry<V>)
    requires IsRun(cfg, truth, states, steps) && k <= |steps| && 0 < cfg.max && cfg.onFailure.None?
    requires e in states[k].cache
    ensures exists r :: e.exp - cfg.ttl <= r <= states[k].now && truth(e.host, r) == e.value
  {
    assert |states| == |steps| + 1;
    hide Next, IsStep, IsRun;
    EveryRunIsGood(cfg, truth, states, steps, k);
    var m := states[k];
    var i :| 0 <= i < |m.cache| && m.cache[i] == e;
    hide IsCache, HasBehind;
    assert HasSource(cfg, m.finished, e);
    var j :| 0 <= j < |m.finished| && m.finished[j] == LastVerdict(cfg, m.finished, e.host).value;
    assert IsTrue(truth, m.finished[j], m.now);
  }

  /**
   * In any run an entry holds the verdict of the last lookup of its host that left one, and so does
   * the cache when it serves. A value that the source never gives is held, and served, if and only
   * if it is the one for failures and that last lookup failed.
   */
  lemma HeldIsLastVerdict<V(!new)>(cfg: Config<V>, truth: (string, int) -> V, states: seq<Machine<V>>, steps: seq<Step>,
                                  k: nat, host: string)
    requires IsRun(cfg, truth, states, steps) && k <= |steps| && 0 < cfg.max && Has(states[k].cache, host)
    ensures var e, last := Get(states[k].cache, host), LastVerdict(cfg, states[k].finished, host);
            && last.Some? && Verdict(cfg, last.value) == Some(e.value.value)
            && e.value.exp == last.value.lookup.start + cfg.ttl
    ensures var v, last := Get(states[k].cache, host).value.value, LastVerdict(cfg, states[k].finished, host).value;
            (forall r :: truth(host, r) != v) ==> last.Failed? && cfg.onFailure == Some(v)
  {
    assert |states| == |steps| + 1;
    hide Next, IsStep, IsRun;
    EveryRunIsGood(cfg, truth, states, steps, k);
    var m := states[k];
    var e := m.cache[IndexOfHost(m.cache, host)];
    hide IsCache, HasBehind;
    assert HasSource(cfg, m.finished, e);
    var last := LastVerdict(cfg, m.finished, host).value;
    var j :| 0 <= j < |m.finished| && m.finished[j] == last;
    assert IsTrue(truth, m.finished[j], m.now);
  }
}
