/**
  The FX quote cache and circuit breaker of apps/api/src/anchor/anchor.service.ts.

  A call reads the cache and the breaker at `t0`; if it contacts the anchor, the answer
  arrives at `t1` and everything after it happens at that instant. Times are milliseconds,
  rates are exact reals. Calls run one after the other.
*/
module FxRates {
  import opened Wrappers

  datatype Settings = Settings(maxCacheAgeSeconds: nat, cacheRetentionSeconds: nat,
                               circuitFailureThreshold: int, circuitResetMs: nat)

  // What fetchExternalRate does: resolve with a rate, resolve with null, or throw.
  datatype Fetch = Quote(rate: real) | NoQuote | Unreachable

  datatype CacheEntry = CacheEntry(rate: real, fetchedAt: nat, expiresAt: Option<nat>)

  datatype Breaker = Breaker(consecutiveFailures: nat, openedAt: Option<nat>)

  const Closed := Breaker(0, None)

  datatype FxResult = FxResult(rate: Option<real>, rateExpiresAt: Option<nat>, stale: bool, circuitOpen: bool)

  // The part of the service state that belongs to one cache key.
  datatype Slot = Slot(cache: Option<CacheEntry>, breaker: Breaker)

  const EmptySlot := Slot(None, Closed)

  function Abs(x: real): real { if x < 0.0 then -x else x }

  // delta <= DELTA_THRESHOLD; a zero quote gives Infinity or NaN, which is not.
  predicate KeepsCached(external: real, cached: real) {
    external != 0.0 && Abs(external - cached) / external <= 0.005
  }

  predicate IsCircuitOpen(cfg: Settings, b: Breaker, now: nat) {
    b.openedAt.Some? && now - b.openedAt.value < cfg.circuitResetMs
  }

  // InMemoryCache.get: an expired entry is deleted on reading.
  function ReadCache(entry: Option<CacheEntry>, now: nat): Option<CacheEntry> {
    if entry.Some? && entry.value.expiresAt.Some? && now > entry.value.expiresAt.value then None else entry
  }

  function BuildCachedResult(cfg: Settings, cached: Option<CacheEntry>, now: nat, circuitOpen: bool): FxResult {
    if cached.None? then FxResult(None, None, false, circuitOpen)
    else
      var expiresAt := cached.value.fetchedAt + cfg.maxCacheAgeSeconds * 1000;
      FxResult(Some(cached.value.rate), Some(expiresAt), now > expiresAt, circuitOpen)
  }

  function AfterFailure(cfg: Settings, b: Breaker, now: nat): Breaker {
    var failures := b.consecutiveFailures + 1;
    Breaker(failures, if failures >= cfg.circuitFailureThreshold then Some(now) else b.openedAt)
  }

  function StoredEntry(cfg: Settings, rate: real, now: nat): CacheEntry {
    CacheEntry(rate, now, if cfg.cacheRetentionSeconds == 0 then None else Some(now + cfg.cacheRetentionSeconds * 1000))
  }

  datatype StepResult = StepResult(slot: Slot, result: FxResult, fetched: bool)

  // getFxRate, as it acts on the slot of its own key
  function SlotStep(cfg: Settings, slot: Slot, t0: nat, t1: nat, fetch: Fetch): StepResult {
    var cached := ReadCache(slot.cache, t0);
    if IsCircuitOpen(cfg, slot.breaker, t0) then
      StepResult(Slot(cached, slot.breaker), BuildCachedResult(cfg, cached, t0, true), false)
    else match fetch
      case Unreachable =>
        var b := AfterFailure(cfg, slot.breaker, t1);
        StepResult(Slot(cached, b), BuildCachedResult(cfg, cached, t1, IsCircuitOpen(cfg, b, t1)), true)
      case NoQuote =>
        StepResult(Slot(cached, Closed), BuildCachedResult(cfg, cached, t1, false), true)
      case Quote(external) =>
        var rate := if cached.Some? && KeepsCached(external, cached.value.rate) then cached.value.rate else external;
        StepResult(Slot(Some(StoredEntry(cfg, rate, t1)), Closed),
                   FxResult(Some(rate), Some(t1 + cfg.maxCacheAgeSeconds * 1000), false, false), true)
  }

  // ----- Keys -----

  function Normalise(code: string): string { if code == "USDC" then "USD" else code }

  function CacheKey(from: string, to: string): string {
    "fx:" + Normalise(from) + ":" + Normalise(to)
  }

  /** Keys of codes without a colon coincide exactly for the same normalised pair. */
  lemma {:induction false} CacheKeyInjective(from: string, to: string, from': string, to': string)
    requires ':' !in from && ':' !in from'
    ensures CacheKey(from, to) == CacheKey(from', to') <==>
      Normalise(from) == Normalise(from') && Normalise(to) == Normalise(to')
  {
    if CacheKey(from, to) == CacheKey(from', to') {
      var a, b, a', b' := Normalise(from), Normalise(to), Normalise(from'), Normalise(to');
      var k := CacheKey(from, to);
      assert k[3..] == a + ":" + b == a' + ":" + b';
      SplitAtColon(a, b, a', b');
    }
  }

  lemma {:induction false} SplitAtColon(a: string, b: string, c: string, d: string)
    requires ':' !in a && ':' !in c && a + ":" + b == c + ":" + d
    ensures a == c && b == d
  {
    var s := a + ":" + b;
    assert s == c + ":" + d && s[|a|] == ':' && s[|c|] == ':';
    assert forall j :: 0 <= j < |a| ==> s[j] == a[j];
    assert forall j :: 0 <= j < |c| ==> s[j] == c[j];
    assert |a| == |c|;
    assert a == s[..|a|] == c && b == s[|a| + 1..] == d;
  }

  // The same currency: USDC is USD.
  predicate SameCode(a: string, b: string) {
    a == b || (a in {"USD", "USDC"} && b in {"USD", "USDC"})
  }

  /** In terms of the codes asked for: pairs share a key exactly when both codes are the same currency. */
  lemma {:induction false} PairsShareKeyIff(from: string, to: string, from': string, to': string)
    requires ':' !in from && ':' !in from'
    ensures CacheKey(from, to) == CacheKey(from', to') <==> SameCode(from, from') && SameCode(to, to')
  {
    hide CacheKey;
    assert |"USD"| == 3 && |"USDC"| == 4;
    CacheKeyInjective(from, to, from', to');
  }

  // b takes over a colon and what precedes it from a'.
  ghost predicate Shifted(a: string, b: string, a': string, b': string) {
    exists m: string :: a' == a + ":" + m && b == m + ":" + b'
  }

  /** Two pairs share a key if and only if they are one pair, or a colon shifts from one code to the other. */
  lemma {:induction false} CacheKeyCollision(from: string, to: string, from': string, to': string)
    ensures var a, b, a', b' := Normalise(from), Normalise(to), Normalise(from'), Normalise(to');
      CacheKey(from, to) == CacheKey(from', to') <==>
        (a == a' && b == b') || Shifted(a, b, a', b') || Shifted(a', b', a, b)
  {
    var a, b, a', b' := Normalise(from), Normalise(to), Normalise(from'), Normalise(to');
    var k, k' := CacheKey(from, to), CacheKey(from', to');
    assert k[3..] == a + ":" + b && k'[3..] == a' + ":" + b';
    ShiftedJoins(a, b, a', b');
    ShiftedJoins(a', b', a, b);
    if k == k' {
      JoinsShift(a, b, a', b');
    } else {
      assert a + ":" + b != a' + ":" + b' by {
        assert k == "fx:" + k[3..] && k' == "fx:" + k'[3..];
      }
    }
  }

  lemma {:induction false} ShiftedJoins(a: string, b: string, a': string, b': string)
    ensures Shifted(a, b, a', b') ==> a + ":" + b == a' + ":" + b'
  {
    if Shifted(a, b, a', b') {
      var m: string :| a' == a + ":" + m && b == m + ":" + b';
      assert a + ":" + (m + ":" + b') == a + ":" + m + ":" + b';
    }
  }

  lemma {:induction false} JoinsShift(a: string, b: string, a': string, b': string)
    requires a + ":" + b == a' + ":" + b'
    ensures (a == a' && b == b') || Shifted(a, b, a', b') || Shifted(a', b', a, b)
    decreases |a| > |a'|
  {
    var s := a + ":" + b;
    if |a| > |a'| {
      JoinsShift(a', b', a, b);
    } else if |a| == |a'| {
      assert a == s[..|a|] == a' && b == s[|a| + 1..] == b';
    } else {
      var m := a'[|a| + 1..];
      assert a'[..|a|] == s[..|a|] == a && a'[|a|] == s[|a|] == ':';
      assert a' == a + ":" + m;
      assert b == s[|a| + 1..] == m + ":" + b';
    }
  }

  // ----- The service -----

  // All of it: the cache and the breakers by key.
  datatype Service = Service(cache: map<string, CacheEntry>, breakers: map<string, Breaker>)

  const NewService := Service(map[], map[])

  datatype Call = Call(from: string, to: string, t0: nat, t1: nat, fetch: Fetch) {
    function Key(): string { CacheKey(from, to) }
  }

  datatype Answer = Answer(result: FxResult, fetched: bool)

  function SlotAt(s: Service, key: string): Slot {
    Slot(if key in s.cache then Some(s.cache[key]) else None,
         if key in s.breakers then s.breakers[key] else Closed)
  }

  // The entry of one key replaced, or removed.
  function WithEntry(cache: map<string, CacheEntry>, key: string, entry: Option<CacheEntry>): map<string, CacheEntry> {
    if entry.Some? then cache[key := entry.value] else cache - {key}
  }

  // getFxRate on the whole state.
  function Serve(cfg: Settings, s: Service, c: Call): (Service, Answer) {
    var step := SlotStep(cfg, SlotAt(s, c.Key()), c.t0, c.t1, c.fetch);
    (Service(WithEntry(s.cache, c.Key(), step.slot.cache), s.breakers[c.Key() := step.slot.breaker]),
     Answer(step.result, step.fetched))
  }

  /** A call makes one step of the slot of its own key, and leaves every other slot alone. */
  lemma {:induction false} ServeActsOnSlot(cfg: Settings, s: Service, c: Call, key: string)
    ensures var (s', answer) := Serve(cfg, s, c);
      var step := SlotStep(cfg, SlotAt(s, c.Key()), c.t0, c.t1, c.fetch);
      && answer == Answer(step.result, step.fetched)
      && SlotAt(s', key) == if key == c.Key() then step.slot else SlotAt(s, key)
  {
    hide CacheKey, SlotStep;
  }

  class AnchorService {
    const cfg: Settings
    var cache: map<string, CacheEntry>
    var breakers: map<string, Breaker>

    constructor (cfg: Settings)
      ensures this.cfg == cfg && State() == NewService
    {
      this.cfg := cfg;
      cache, breakers := map[], map[];
    }

    ghost function State(): Service
      reads this
    {
      Service(cache, breakers)
    }

    method CacheGet(key: string, now: nat) returns (r: Option<CacheEntry>)
      modifies this`cache
      ensures r == if key in old(cache) then ReadCache(Some(old(cache)[key]), now) else None
      ensures cache == if key in old(cache) && r.None? then old(cache) - {key} else old(cache)
    {
      if key !in cache {
        return None;
      }
      var entry := cache[key];
      if entry.expiresAt.Some? && now > entry.expiresAt.value {
        cache := cache - {key};
        return None;
      }
      return Some(entry);
    }

    method GetFxRate(from: string, to: string, t0: nat, t1: nat, fetch: Fetch) returns (r: FxResult, fetched: bool)
      modifies this
      ensures (State(), Answer(r, fetched)) == Serve(cfg, old(State()), Call(from, to, t0, t1, fetch))
    {
      var key := CacheKey(from, to);
      var cached := CacheGet(key, t0);
      if key !in breakers {
        breakers := breakers[key := Closed];
      }
      var breaker := breakers[key];
      assert cache == WithEntry(old(cache), key, cached) && breakers == old(breakers)[key := breaker];
      if IsCircuitOpen(cfg, breaker, t0) {
        return BuildCachedResult(cfg, cached, t0, true), false;
      }
      fetched := true;
      match fetch {
        case Unreachable =>
          breakers := breakers[key := AfterFailure(cfg, breaker, t1)];
          assert breakers == old(breakers)[key := AfterFailure(cfg, breaker, t1)];
        case NoQuote =>
          breakers := breakers[key := Closed];
          assert breakers == old(breakers)[key := Closed];
        case Quote(external) =>
          breakers := breakers[key := Closed];
          assert breakers == old(breakers)[key := Closed];
          var rate := external;
          if cached.Some? && KeepsCached(external, cached.value.rate) {
            rate := cached.value.rate;
          }
          cache := cache[key := StoredEntry(cfg, rate, t1)];
          assert cache == old(cache)[key := StoredEntry(cfg, rate, t1)];
          return FxResult(Some(rate), Some(t1 + cfg.maxCacheAgeSeconds * 1000), false, false), true;
      }
      r := BuildCachedResult(cfg, cached, t1, IsCircuitOpen(cfg, breakers[key], t1));
    }
  }

  // ----- Runs -----

  // One attempted fetch: when it started, when and how it ended.
  datatype Record = Record(startedAt: nat, at: nat, fetch: Fetch)

  datatype Contact = Contact(key: string, record: Record)

  // Calls one after the other, on a clock that does not run backwards.
  ghost predicate Sequential(calls: seq<Call>) {
    && (forall i :: 0 <= i < |calls| ==> calls[i].t0 <= calls[i].t1)
    && (forall i, j :: 0 <= i < j < |calls| ==> calls[i].t1 <= calls[j].t0)
  }

  ghost predicate PositiveQuotes(calls: seq<Call>) {
    forall i :: 0 <= i < |calls| && calls[i].fetch.Quote? ==> calls[i].fetch.rate > 0.0
  }

  // The service after a run, the answer to each call, and the fetches made.
  datatype Trace = Trace(service: Service, answers: seq<Answer>, contacts: seq<Contact>)

  function RunService(cfg: Settings, calls: seq<Call>): (t: Trace)
    ensures |t.answers| == |calls|
  {
    if calls == [] then Trace(NewService, [], [])
    else
      var n := |calls| - 1;
      var t, c := RunService(cfg, calls[..n]), calls[n];
      var (service, answer) := Serve(cfg, t.service, c);
      Trace(service, t.answers + [answer],
            if answer.fetched then t.contacts + [Contact(c.Key(), Record(c.t0, c.t1, c.fetch))] else t.contacts)
  }

  function RecordsOf(contacts: seq<Contact>, key: string): seq<Record> {
    if contacts == [] then []
    else
      var n := |contacts| - 1;
      RecordsOf(contacts[..n], key) + (if contacts[n].key == key then [contacts[n].record] else [])
  }

  function OnlyKey(calls: seq<Call>, key: string): seq<Call> {
    if calls == [] then []
    else
      var n := |calls| - 1;
      OnlyKey(calls[..n], key) + (if calls[n].Key() == key then [calls[n]] else [])
  }

  // The answers to the calls of one key.
  function AnswersOf(calls: seq<Call>, answers: seq<Answer>, key: string): seq<Answer>
    requires |answers| == |calls|
  {
    if calls == [] then []
    else
      var n := |calls| - 1;
      AnswersOf(calls[..n], answers[..n], key) + (if calls[n].Key() == key then [answers[n]] else [])
  }

  // What a run leaves of one key: its slot, and the fetches made for it.
  datatype History = History(slot: Slot, log: seq<Record>)

  function HistoryOf(cfg: Settings, calls: seq<Call>, key: string): History {
    var t := RunService(cfg, calls);
    History(SlotAt(t.service, key), RecordsOf(t.contacts, key))
  }

  function Advance(cfg: Settings, h: History, c: Call): History {
    var r := SlotStep(cfg, h.slot, c.t0, c.t1, c.fetch);
    History(r.slot, if r.fetched then h.log + [Record(c.t0, c.t1, c.fetch)] else h.log)
  }

  lemma {:induction false} RecordsSnoc(contacts: seq<Contact>, c: Contact, key: string)
    ensures RecordsOf(contacts + [c], key) == RecordsOf(contacts, key) + if c.key == key then [c.record] else []
  {
    assert (contacts + [c])[..|contacts|] == contacts;
  }

  /** In a run of the service, the last call advances the history of its own key and no other. */
  lemma {:induction false} LastCall(cfg: Settings, calls: seq<Call>, key: string)
    requires calls != []
    ensures var n := |calls| - 1;
      var c := calls[n];
      var h := HistoryOf(cfg, calls[..n], c.Key());
      var step := SlotStep(cfg, h.slot, c.t0, c.t1, c.fetch);
      && RunService(cfg, calls).answers == RunService(cfg, calls[..n]).answers + [Answer(step.result, step.fetched)]
      && HistoryOf(cfg, calls, key) == if c.Key() == key then Advance(cfg, h, c) else HistoryOf(cfg, calls[..n], key)
  {
    hide Serve, SlotStep, CacheKey, SlotAt;
    var n := |calls| - 1;
    var t, c := RunService(cfg, calls[..n]), calls[n];
    ServeActsOnSlot(cfg, t.service, c, key);
    RecordsSnoc(t.contacts, Contact(c.Key(), Record(c.t0, c.t1, c.fetch)), key);
  }

  lemma {:induction false} NoHistory(cfg: Settings, key: string)
    ensures HistoryOf(cfg, [], key) == History(EmptySlot, [])
  {
  }

  lemma {:induction false} NoCalls(cfg: Settings, key: string)
    ensures OnlyKey([], key) == [] && RunService(cfg, []).answers == []
  {
  }

  lemma {:induction false} AnswersPrefix(cfg: Settings, calls: seq<Call>, m: nat)
    requires m <= |calls|
    ensures RunService(cfg, calls).answers[..m] == RunService(cfg, calls[..m]).answers
  {
    hide Serve;
    if m < |calls| {
      var n := |calls| - 1;
      AnswersPrefix(cfg, calls[..n], m);
      assert calls[..n][..m] == calls[..m];
      assert RunService(cfg, calls).answers[..m] == RunService(cfg, calls[..n]).answers[..m];
    } else {
      assert calls[..m] == calls;
    }
  }

  lemma {:induction false} OnlyKeySnoc(calls: seq<Call>, key: string)
    requires calls != []
    ensures var n := |calls| - 1;
      var before, only := OnlyKey(calls[..n], key), OnlyKey(calls, key);
      if calls[n].Key() == key then only == before + [calls[n]] && only[..|only| - 1] == before else only == before
  {
  }

  /**
    Calls for other pairs are invisible in a run of the service: dropping them changes
    nothing about a pair's slot, its fetches, or the answers to its calls.
  */
  lemma {:induction false} PairsAreIsolated(cfg: Settings, calls: seq<Call>, key: string)
    ensures HistoryOf(cfg, calls, key) == HistoryOf(cfg, OnlyKey(calls, key), key)
    ensures AnswersOf(calls, RunService(cfg, calls).answers, key) == RunService(cfg, OnlyKey(calls, key)).answers
  {
    hide Advance, HistoryOf, SlotStep, CacheKey, RunService, OnlyKey;
    if calls == [] {
      NoCalls(cfg, key);
    } else {
      var n := |calls| - 1;
      PairsAreIsolated(cfg, calls[..n], key);
      LastCall(cfg, calls, key);
      OnlyKeySnoc(calls, key);
      assert RunService(cfg, calls).answers[..n] == RunService(cfg, calls[..n]).answers;
      if calls[n].Key() == key {
        LastCall(cfg, OnlyKey(calls, key), key);
      }
    }
  }

  // ----- Quotes -----

  predicate Near(rate: real, quote: real) {
    Abs(quote - rate) <= 0.005 * quote
  }

  // The entry's rate is within 0.5% of what the anchor returned at fetchedAt.
  predicate BackedBy(rate: real, fetchedAt: nat, log: seq<Record>) {
    exists i :: 0 <= i < |log| && log[i].fetch.Quote? && log[i].at == fetchedAt && Near(rate, log[i].fetch.rate)
  }

  ghost predicate CacheSound(cfg: Settings, h: History) {
    h.slot.cache.Some? ==>
      var e := h.slot.cache.value;
      BackedBy(e.rate, e.fetchedAt, h.log) && e == StoredEntry(cfg, e.rate, e.fetchedAt)
  }

  lemma {:induction false} KeptIsNear(external: real, cached: real)
    requires external > 0.0
    ensures KeepsCached(external, cached) <==> Near(cached, external)
  {
    var d := Abs(external - cached);
    assert d / external * external == d;
  }

  lemma {:induction false} BackedGrows(rate: real, at: nat, log: seq<Record>, r: Record)
    requires BackedBy(rate, at, log)
    ensures BackedBy(rate, at, log + [r])
  {
    var i :| 0 <= i < |log| && log[i].fetch.Quote? && log[i].at == at && Near(rate, log[i].fetch.rate);
    assert (log + [r])[i] == log[i];
  }

  lemma {:induction false} QuoteBacks(cfg: Settings, slot: Slot, c: Call, log: seq<Record>)
    requires c.fetch.Quote? && c.fetch.rate > 0.0 && !IsCircuitOpen(cfg, slot.breaker, c.t0)
    ensures var r := SlotStep(cfg, slot, c.t0, c.t1, c.fetch);
      r.result.rate.Some? && BackedBy(r.result.rate.value, c.t1, log + [Record(c.t0, c.t1, c.fetch)])
  {
    var r := SlotStep(cfg, slot, c.t0, c.t1, c.fetch);
    var cached := ReadCache(slot.cache, c.t0);
    if cached.Some? {
      KeptIsNear(c.fetch.rate, cached.value.rate);
    }
    var log' := log + [Record(c.t0, c.t1, c.fetch)];
    assert log'[|log|] == Record(c.t0, c.t1, c.fetch);
    assert Near(r.result.rate.value, log'[|log|].fetch.rate);
  }

  lemma {:induction false} AdvanceKeepsCacheSound(cfg: Settings, h: History, c: Call)
    requires CacheSound(cfg, h) && (c.fetch.Quote? ==> c.fetch.rate > 0.0)
    ensures CacheSound(cfg, Advance(cfg, h, c))
  {
    hide BackedBy, KeepsCached;
    var r := SlotStep(cfg, h.slot, c.t0, c.t1, c.fetch);
    if h.slot.cache.Some? {
      var e := h.slot.cache.value;
      BackedGrows(e.rate, e.fetchedAt, h.log, Record(c.t0, c.t1, c.fetch));
    }
    if r.fetched && c.fetch.Quote? {
      QuoteBacks(cfg, h.slot, c, h.log);
    }
  }

  lemma {:induction false} RunKeepsCacheSound(cfg: Settings, calls: seq<Call>, key: string)
    requires PositiveQuotes(calls)
    ensures CacheSound(cfg, HistoryOf(cfg, calls, key))
  {
    hide Advance, BackedBy, HistoryOf;
    if calls == [] {
      NoHistory(cfg, key);
    } else {
      var n := |calls| - 1;
      RunKeepsCacheSound(cfg, calls[..n], key);
      LastCall(cfg, calls, key);
      AdvanceKeepsCacheSound(cfg, HistoryOf(cfg, calls[..n], key), calls[n]);
    }
  }

  // What is promised of an answer: backed by a quote, within retention, stale by the clock.
  ghost predicate AnswerSound(cfg: Settings, c: Call, answer: Answer, log: seq<Record>) {
    answer.result.rate.Some? ==>
      && answer.result.rateExpiresAt.Some?
      && answer.result.rateExpiresAt.value >= cfg.maxCacheAgeSeconds * 1000
      && var f := answer.result.rateExpiresAt.value - cfg.maxCacheAgeSeconds * 1000;
         && BackedBy(answer.result.rate.value, f, log)
         && (cfg.cacheRetentionSeconds > 0 && !(answer.fetched && c.fetch.Quote?) ==>
               c.t0 <= f + cfg.cacheRetentionSeconds * 1000)
         && (answer.result.stale <==> (if answer.fetched then c.t1 else c.t0) > answer.result.rateExpiresAt.value)
  }

  lemma {:induction false} StepAnswerSound(cfg: Settings, h: History, c: Call)
    requires CacheSound(cfg, h) && c.t0 <= c.t1 && (c.fetch.Quote? ==> c.fetch.rate > 0.0)
    ensures var step := SlotStep(cfg, h.slot, c.t0, c.t1, c.fetch);
      AnswerSound(cfg, c, Answer(step.result, step.fetched), Advance(cfg, h, c).log)
  {
    hide BackedBy, KeepsCached;
    AdvanceKeepsCacheSound(cfg, h, c);
    var r := SlotStep(cfg, h.slot, c.t0, c.t1, c.fetch);
    if r.fetched && c.fetch.Quote? {
      QuoteBacks(cfg, h.slot, c, h.log);
    } else if h.slot.cache.Some? {
      var e := h.slot.cache.value;
      BackedGrows(e.rate, e.fetchedAt, h.log, Record(c.t0, c.t1, c.fetch));
    }
  }

  /**
    In any run of the service, a served rate is within 0.5% of a quote the anchor gave for
    that pair at the instant f that the result's expiry is computed from, so drift never
    accumulates. When it comes from the cache, f is within the retention time of the read.
    `stale` holds exactly when the answer leaves later than the freshness bound after f.
  */
  lemma {:induction false} ServedRatesAreSound(cfg: Settings, calls: seq<Call>, i: nat)
    requires i < |calls| && PositiveQuotes(calls) && calls[i].t0 <= calls[i].t1
    ensures AnswerSound(cfg, calls[i], RunService(cfg, calls).answers[i],
                        HistoryOf(cfg, calls[..i + 1], calls[i].Key()).log)
  {
    hide AnswerSound, CacheSound, Advance, HistoryOf, RunService, CacheKey;
    var upTo := calls[..i + 1];
    assert upTo[..i] == calls[..i] && upTo[i] == calls[i];
    AnswersPrefix(cfg, calls, i + 1);
    LastCall(cfg, upTo, calls[i].Key());
    RunKeepsCacheSound(cfg, upTo[..i], calls[i].Key());
    StepAnswerSound(cfg, HistoryOf(cfg, upTo[..i], calls[i].Key()), calls[i]);
  }

  // ----- The breaker -----

  // Failed fetches since the last one that got an answer.
  function TrailingFailures(log: seq<Record>): nat {
    if log == [] || log[|log| - 1].fetch != Unreachable then 0
    else 1 + TrailingFailures(log[..|log| - 1])
  }

  function Threshold(cfg: Settings): nat {
    if cfg.circuitFailureThreshold < 1 then 1 else cfg.circuitFailureThreshold
  }

  predicate BreakerSound(cfg: Settings, h: History) {
    && (h.log == [] ==> TrailingFailures(h.log) == 0)
    && h.slot.breaker.consecutiveFailures == TrailingFailures(h.log)
    && h.slot.breaker.openedAt ==
         if TrailingFailures(h.log) >= Threshold(cfg) then Some(h.log[|h.log| - 1].at) else None
  }

  // From the threshold-th consecutive failure on, the next fetch waits for the reset time.
  ghost predicate Spaced(cfg: Settings, log: seq<Record>) {
    && (forall i :: 0 <= i < |log| ==> log[i].startedAt <= log[i].at)
    && (forall i, j :: 0 <= i && j == i + 1 < |log| ==>
         && log[i].at <= log[j].startedAt
         && (TrailingFailures(log[..j]) >= Threshold(cfg) ==> log[i].at + cfg.circuitResetMs <= log[j].startedAt))
  }

  lemma {:induction false} SpacedSnoc(cfg: Settings, log: seq<Record>, r: Record)
    requires Spaced(cfg, log) && r.startedAt <= r.at
    requires log != [] ==> log[|log| - 1].at <= r.startedAt
    requires log != [] && TrailingFailures(log) >= Threshold(cfg) ==>
      log[|log| - 1].at + cfg.circuitResetMs <= r.startedAt
    ensures Spaced(cfg, log + [r])
  {
    hide TrailingFailures, Threshold;
    var log' := log + [r];
    forall i, j | 0 <= i && j == i + 1 < |log'|
      ensures log'[i].at <= log'[j].startedAt
      ensures TrailingFailures(log'[..j]) >= Threshold(cfg) ==> log'[i].at + cfg.circuitResetMs <= log'[j].startedAt
    {
      assert log'[..j] == log[..j];
      if j == |log| {
        assert log[..j] == log;
      } else {
        assert log'[i] == log[i] && log'[j] == log[j];
      }
    }
  }

  lemma {:induction false} TrailingSnoc(log: seq<Record>, r: Record)
    ensures TrailingFailures(log + [r]) == if r.fetch == Unreachable then TrailingFailures(log) + 1 else 0
  {
    assert (log + [r])[..|log|] == log;
  }

  lemma {:induction false} AdvanceKeepsBreaker(cfg: Settings, h: History, c: Call)
    requires BreakerSound(cfg, h) && Spaced(cfg, h.log)
    requires c.t0 <= c.t1 && (h.log != [] ==> h.log[|h.log| - 1].at <= c.t0)
    ensures BreakerSound(cfg, Advance(cfg, h, c)) && Spaced(cfg, Advance(cfg, h, c).log)
  {
    hide TrailingFailures, Spaced, KeepsCached;
    if SlotStep(cfg, h.slot, c.t0, c.t1, c.fetch).fetched {
      TrailingSnoc(h.log, Record(c.t0, c.t1, c.fetch));
      SpacedSnoc(cfg, h.log, Record(c.t0, c.t1, c.fetch));
    }
  }

  lemma {:induction false} RunKeepsBreaker(cfg: Settings, calls: seq<Call>, key: string)
    requires Sequential(calls)
    ensures var h := HistoryOf(cfg, calls, key);
      && BreakerSound(cfg, h) && Spaced(cfg, h.log)
      && (h.log != [] ==> calls != [] && h.log[|h.log| - 1].at <= calls[|calls| - 1].t1)
  {
    hide BreakerSound, SlotStep, Spaced, HistoryOf, CacheKey;
    if calls == [] {
      NoHistory(cfg, key);
      EmptyHistory(cfg);
    } else {
      var n := |calls| - 1;
      RunKeepsBreaker(cfg, calls[..n], key);
      LastCall(cfg, calls, key);
      var h := HistoryOf(cfg, calls[..n], key);
      assert h.log != [] ==> n > 0 && calls[..n][n - 1] == calls[n - 1] && calls[n - 1].t1 <= calls[n].t0;
      if calls[n].Key() == key {
        AdvanceKeepsBreaker(cfg, h, calls[n]);
      }
    }
  }

  lemma {:induction false} EmptyHistory(cfg: Settings)
    ensures BreakerSound(cfg, History(EmptySlot, [])) && Spaced(cfg, [])
  {
  }

  lemma {:induction false} StreakCounts(log: seq<Record>, a: nat, j: nat)
    requires a <= j <= |log| && forall i :: a <= i < j ==> log[i].fetch == Unreachable
    ensures TrailingFailures(log[..j]) >= j - a
    decreases j
  {
    if a < j {
      StreakCounts(log, a, j - 1);
      assert log[..j][..j - 1] == log[..j - 1];
    }
  }

  lemma {:induction false} StreakSpacing(cfg: Settings, log: seq<Record>, a: nat, b: nat, m: nat)
    requires Spaced(cfg, log) && a < b <= |log| && forall i :: a <= i < b ==> log[i].fetch == Unreachable
    requires a + Threshold(cfg) + m <= b
    ensures log[a].startedAt + m * cfg.circuitResetMs <= log[a + Threshold(cfg) + m - 1].startedAt
    decreases m
  {
    var j := a + Threshold(cfg) + m - 1;
    if m == 0 {
      StartsAscend(cfg, log, a, j);
    } else {
      StreakSpacing(cfg, log, a, b, m - 1);
      StreakCounts(log, a, j);
      assert log[j - 1].at + cfg.circuitResetMs <= log[j].startedAt;
      assert m * cfg.circuitResetMs == (m - 1) * cfg.circuitResetMs + cfg.circuitResetMs;
    }
  }

  lemma {:induction false} StartsAscend(cfg: Settings, log: seq<Record>, i: nat, j: nat)
    requires Spaced(cfg, log) && i <= j < |log|
    ensures log[i].startedAt <= log[j].startedAt
    decreases j
  {
    if i < j {
      StartsAscend(cfg, log, i, j - 1);
      assert log[j - 1].at <= log[j].startedAt;
    }
  }

  /**
    A failing streak, in any run: the fetches with indices [a, b) all failed. Their number
    is at most the threshold plus one per full reset time between the first and the last.
  */
  lemma {:induction false} FailingStreakBound(cfg: Settings, calls: seq<Call>, key: string, a: nat, b: nat)
    requires Sequential(calls) && cfg.circuitResetMs > 0
    requires a < b <= |HistoryOf(cfg, calls, key).log|
    requires forall i :: a <= i < b ==> HistoryOf(cfg, calls, key).log[i].fetch == Unreachable
    ensures var log := HistoryOf(cfg, calls, key).log;
      log[a].startedAt <= log[b - 1].startedAt &&
      b - a <= Threshold(cfg) + (log[b - 1].startedAt - log[a].startedAt) / cfg.circuitResetMs
  {
    hide HistoryOf, Spaced, BreakerSound;
    RunKeepsBreaker(cfg, calls, key);
    StreakBound(cfg, HistoryOf(cfg, calls, key).log, a, b);
  }

  lemma {:induction false} StreakBound(cfg: Settings, log: seq<Record>, a: nat, b: nat)
    requires Spaced(cfg, log) && cfg.circuitResetMs > 0
    requires a < b <= |log| && forall i :: a <= i < b ==> log[i].fetch == Unreachable
    ensures log[a].startedAt <= log[b - 1].startedAt
    ensures b - a <= Threshold(cfg) + (log[b - 1].startedAt - log[a].startedAt) / cfg.circuitResetMs
  {
    hide Spaced, Threshold;
    StartsAscend(cfg, log, a, b - 1);
    var span := log[b - 1].startedAt - log[a].startedAt;
    DivisionBound(0, span, cfg.circuitResetMs);
    if b - a > Threshold(cfg) {
      var m := b - a - Threshold(cfg);
      StreakSpacing(cfg, log, a, b, m);
      DivisionBound(m, span, cfg.circuitResetMs);
    }
  }

  lemma {:induction false} DivisionBound(m: nat, span: nat, reset: nat)
    requires reset > 0 && m * reset <= span
    ensures m <= span / reset
  {
    var q := span / reset;
    assert span < (q + 1) * reset;
    assert m >= q + 1 ==> m * reset >= (q + 1) * reset;
  }

  // ----- Every answer, from the fetches of the pair -----

  datatype Kept = Kept(rate: real, at: nat)

  predicate WithinRetention(cfg: Settings, at: nat, now: nat) {
    cfg.cacheRetentionSeconds == 0 || now <= at + cfg.cacheRetentionSeconds * 1000
  }

  // The rate and instant of the last quote. A quote keeps the rate before it if that was still
  // retained when the fetch began and lies within 0.5% (a negative quote keeps any).
  function LastKept(cfg: Settings, log: seq<Record>): Option<Kept> {
    if log == [] then None
    else
      var n := |log| - 1;
      var before := LastKept(cfg, log[..n]);
      match log[n].fetch
      case Quote(x) =>
        var keeps := before.Some? && WithinRetention(cfg, before.value.at, log[n].startedAt)
          && (x < 0.0 || (x > 0.0 && Near(before.value.rate, x)));
        Some(Kept(if keeps then before.value.rate else x, log[n].at))
      case _ => before
  }

  // The breaker is open: the last `Threshold` fetches failed, and the reset time is not over.
  predicate OpenAt(cfg: Settings, log: seq<Record>, now: nat) {
    && TrailingFailures(log) >= Threshold(cfg)
    && log != [] && now - log[|log| - 1].at < cfg.circuitResetMs
  }

  // What the caller is told of a cached rate at some instant.
  predicate Reports(cfg: Settings, r: FxResult, k: Option<Kept>, now: nat) {
    match k
    case None => r.rate.None? && r.rateExpiresAt.None? && !r.stale
    case Some(k) =>
      && r.rate == Some(k.rate) && r.rateExpiresAt == Some(k.at + cfg.maxCacheAgeSeconds * 1000)
      && (r.stale <==> now > k.at + cfg.maxCacheAgeSeconds * 1000)
  }

  function Usable(cfg: Settings, k: Option<Kept>, now: nat): Option<Kept> {
    if k.Some? && WithinRetention(cfg, k.value.at, now) then k else None
  }

  /**
    The whole answer to a call, given the fetches of its pair before it: whether the anchor is
    asked; a quote is answered with the rate kept for it; without one, the last quote serves
    as long as it is retained; and what `circuitOpen` says in each case.
  */
  ghost predicate AnswerIs(cfg: Settings, c: Call, answer: Answer, log: seq<Record>) {
    var after := log + [Record(c.t0, c.t1, c.fetch)];
    && (answer.fetched <==> !OpenAt(cfg, log, c.t0))
    && (!answer.fetched ==>
          answer.result.circuitOpen && Reports(cfg, answer.result, Usable(cfg, LastKept(cfg, log), c.t0), c.t0))
    && (answer.fetched && c.fetch.Quote? ==>
          !answer.result.circuitOpen && Reports(cfg, answer.result, LastKept(cfg, after), c.t1))
    && (answer.fetched && !c.fetch.Quote? ==>
          && Reports(cfg, answer.result, Usable(cfg, LastKept(cfg, log), c.t0), c.t1)
          && (answer.result.circuitOpen <==> c.fetch.Unreachable? && OpenAt(cfg, after, c.t1)))
  }

  lemma {:induction false} KeepsIff(external: real, cached: real)
    ensures KeepsCached(external, cached) <==> external < 0.0 || (external > 0.0 && Near(cached, external))
  {
    var d := Abs(external - cached);
    if external > 0.0 {
      KeptIsNear(external, cached);
    } else if external < 0.0 {
      QuotientSign(d, external);
    }
  }

  lemma {:induction false} QuotientSign(d: real, x: real)
    requires d >= 0.0 && x < 0.0
    ensures d / x <= 0.0
  {
    var q := d / x;
    assert q * x == d;
    assert q > 0.0 ==> q * x < 0.0;
  }

  lemma {:induction false} LastKeptSnoc(cfg: Settings, log: seq<Record>, r: Record)
    ensures LastKept(cfg, log + [r]) ==
      match r.fetch
      case Quote(x) =>
        var before := LastKept(cfg, log);
        var keeps := before.Some? && WithinRetention(cfg, before.value.at, r.startedAt)
          && (x < 0.0 || (x > 0.0 && Near(before.value.rate, x)));
        Some(Kept(if keeps then before.value.rate else x, r.at))
      case _ => LastKept(cfg, log)
  {
    assert (log + [r])[..|log|] == log;
  }

  // The cache holds the last kept rate, or a read no later than `now` found it expired.
  ghost predicate CacheExact(cfg: Settings, h: History, now: nat) {
    var k := LastKept(cfg, h.log);
    if k.None? then h.slot.cache.None?
    else
      || h.slot.cache == Some(StoredEntry(cfg, k.value.rate, k.value.at))
      || (h.slot.cache.None? && !WithinRetention(cfg, k.value.at, now))
  }

  lemma {:induction false} ReadIsUsable(cfg: Settings, h: History, now: nat, t0: nat)
    requires CacheExact(cfg, h, now) && now <= t0
    ensures var cached, k := ReadCache(h.slot.cache, t0), Usable(cfg, LastKept(cfg, h.log), t0);
      cached == if k.Some? then Some(StoredEntry(cfg, k.value.rate, k.value.at)) else None
  {
    hide LastKept;
  }

  lemma {:induction false} OpenIsOpenAt(cfg: Settings, h: History, now: nat)
    requires BreakerSound(cfg, h)
    ensures IsCircuitOpen(cfg, h.slot.breaker, now) <==> OpenAt(cfg, h.log, now)
  {
    hide TrailingFailures;
  }

  lemma {:induction false} StepAnswerIs(cfg: Settings, h: History, now: nat, c: Call)
    requires CacheExact(cfg, h, now) && BreakerSound(cfg, h) && now <= c.t0 <= c.t1
    ensures var step := SlotStep(cfg, h.slot, c.t0, c.t1, c.fetch);
      AnswerIs(cfg, c, Answer(step.result, step.fetched), h.log)
    ensures CacheExact(cfg, Advance(cfg, h, c), c.t1)
  {
    hide LastKept, KeepsCached, Near, OpenAt, TrailingFailures, BreakerSound;
    var k := Usable(cfg, LastKept(cfg, h.log), c.t0);
    var r := Record(c.t0, c.t1, c.fetch);
    ReadIsUsable(cfg, h, now, c.t0);
    OpenIsOpenAt(cfg, h, c.t0);
    LastKeptSnoc(cfg, h.log, r);
    if c.fetch.Quote? && k.Some? {
      KeepsIff(c.fetch.rate, k.value.rate);
    }
    if c.fetch.Unreachable? && !IsCircuitOpen(cfg, h.slot.breaker, c.t0) {
      FailureOpens(cfg, h, c);
    }
  }

  lemma {:induction false} FailureOpens(cfg: Settings, h: History, c: Call)
    requires BreakerSound(cfg, h) && c.fetch.Unreachable?
    ensures IsCircuitOpen(cfg, AfterFailure(cfg, h.slot.breaker, c.t1), c.t1) <==>
      OpenAt(cfg, h.log + [Record(c.t0, c.t1, c.fetch)], c.t1)
  {
    hide TrailingFailures;
    TrailingSnoc(h.log, Record(c.t0, c.t1, c.fetch));
  }

  lemma {:induction false} RunKeepsCacheExact(cfg: Settings, calls: seq<Call>, key: string)
    requires Sequential(calls)
    ensures CacheExact(cfg, HistoryOf(cfg, calls, key), if calls == [] then 0 else calls[|calls| - 1].t1)
  {
    hide HistoryOf, BreakerSound, SlotStep, CacheKey, Spaced, CacheExact, Advance, AnswerIs, RunService;
    if calls == [] {
      NoHistory(cfg, key);
      NothingKept(cfg);
    } else {
      var n := |calls| - 1;
      RunKeepsCacheExact(cfg, calls[..n], key);
      RunKeepsBreaker(cfg, calls[..n], key);
      LastCall(cfg, calls, key);
      var h, before := HistoryOf(cfg, calls[..n], key), if n == 0 then 0 else calls[n - 1].t1;
      assert n > 0 ==> calls[..n][n - 1] == calls[n - 1];
      if calls[n].Key() == key {
        StepAnswerIs(cfg, h, before, calls[n]);
      } else {
        CacheExactLater(cfg, h, before, calls[n].t1);
      }
    }
  }

  lemma {:induction false} NothingKept(cfg: Settings)
    ensures CacheExact(cfg, History(EmptySlot, []), 0)
  {
  }

  lemma {:induction false} CacheExactLater(cfg: Settings, h: History, now: nat, later: nat)
    requires CacheExact(cfg, h, now) && now <= later
    ensures CacheExact(cfg, h, later)
  {
    hide LastKept;
  }

  /** Every answer of every run of the service, exactly, from the fetches made for the pair before it. */
  lemma {:induction false} AnswersAreExact(cfg: Settings, calls: seq<Call>, i: nat)
    requires i < |calls| && Sequential(calls)
    ensures AnswerIs(cfg, calls[i], RunService(cfg, calls).answers[i],
                     HistoryOf(cfg, calls[..i], calls[i].Key()).log)
  {
    hide AnswerIs, CacheExact, BreakerSound, Spaced, HistoryOf, RunService, CacheKey, SlotStep;
    var upTo := calls[..i + 1];
    assert upTo[..i] == calls[..i] && upTo[i] == calls[i];
    AnswersPrefix(cfg, calls, i + 1);
    LastCall(cfg, upTo, calls[i].Key());
    RunKeepsCacheExact(cfg, calls[..i], calls[i].Key());
    RunKeepsBreaker(cfg, calls[..i], calls[i].Key());
    assert i > 0 ==> calls[..i][i - 1] == calls[i - 1];
    StepAnswerIs(cfg, HistoryOf(cfg, calls[..i], calls[i].Key()), if i == 0 then 0 else calls[i - 1].t1, calls[i]);
  }

  ghost predicate IsLastQuote(log: seq<Record>, m: nat) {
    m < |log| && log[m].fetch.Quote? && forall k :: m < k < |log| ==> !log[k].fetch.Quote?
  }

  // The instant of the last quote.
  ghost predicate LastQuoteAt(log: seq<Record>, at: nat) {
    exists m: nat :: IsLastQuote(log, m) && log[m].at == at
  }

  lemma {:induction false} LastQuoteSnoc(log: seq<Record>, r: Record, at: nat)
    ensures r.fetch.Quote? && r.at == at ==> LastQuoteAt(log + [r], at)
    ensures !r.fetch.Quote? && LastQuoteAt(log, at) ==> LastQuoteAt(log + [r], at)
  {
    var log' := log + [r];
    if r.fetch.Quote? {
      assert IsLastQuote(log', |log|);
    } else if LastQuoteAt(log, at) {
      var m: nat :| IsLastQuote(log, m) && log[m].at == at;
      assert IsLastQuote(log', m);
    }
  }

  lemma {:induction false} KeptIsLastQuote(cfg: Settings, log: seq<Record>)
    ensures LastKept(cfg, log).None? <==> forall m :: 0 <= m < |log| ==> !log[m].fetch.Quote?
    ensures LastKept(cfg, log).Some? ==> LastQuoteAt(log, LastKept(cfg, log).value.at)
  {
    hide LastQuoteAt;
    if log != [] {
      var n := |log| - 1;
      var init := log[..n];
      KeptIsLastQuote(cfg, init);
      hide LastKept;
      LastKeptSnoc(cfg, init, log[n]);
      assert log == init + [log[n]];
      assert forall m :: 0 <= m < n ==> init[m] == log[m];
      if LastKept(cfg, log).Some? {
        LastQuoteSnoc(init, log[n], LastKept(cfg, log).value.at);
      }
    }
  }

  /**
    A call that gets no quote serves a rate if and only if the pair was quoted before and, with
    a retention time, the last quote is still within it; the expiry is then counted from it.
  */
  lemma {:induction false} ServedWithoutQuoteIff(cfg: Settings, calls: seq<Call>, i: nat)
    requires i < |calls| && Sequential(calls)
    requires !(RunService(cfg, calls).answers[i].fetched && calls[i].fetch.Quote?)
    ensures var log, r := HistoryOf(cfg, calls[..i], calls[i].Key()).log, RunService(cfg, calls).answers[i].result;
      && (r.rate.Some? <==> exists at: nat :: LastQuoteAt(log, at) && WithinRetention(cfg, at, calls[i].t0))
      && (r.rate.Some? ==>
            exists at: nat :: LastQuoteAt(log, at) && r.rateExpiresAt == Some(at + cfg.maxCacheAgeSeconds * 1000))
  {
    hide HistoryOf, RunService, LastKept, CacheKey, OpenAt, LastQuoteAt, Sequential;
    var log := HistoryOf(cfg, calls[..i], calls[i].Key()).log;
    AnswersAreExact(cfg, calls, i);
    KeptIsLastQuote(cfg, log);
    LastQuoteUnique(log);
    NoLastQuote(log);
    var k := LastKept(cfg, log);
    if k.Some? {
      assert LastQuoteAt(log, k.value.at);
    }
  }

  lemma {:induction false} LastQuoteUnique(log: seq<Record>)
    ensures forall a: nat, b: nat :: LastQuoteAt(log, a) && LastQuoteAt(log, b) ==> a == b
  {
    forall a: nat, b: nat | LastQuoteAt(log, a) && LastQuoteAt(log, b) ensures a == b {
      var m: nat :| IsLastQuote(log, m) && log[m].at == a;
      var n: nat :| IsLastQuote(log, n) && log[n].at == b;
      assert m == n;
    }
  }

  lemma {:induction false} NoLastQuote(log: seq<Record>)
    ensures (forall m :: 0 <= m < |log| ==> !log[m].fetch.Quote?) ==> forall a: nat :: !LastQuoteAt(log, a)
  {
  }
}
