/**
  The Redis lease lock of services/rust-worker/src/lock_manager.rs as a timed protocol.

  Redis executes each command atomically; commands of any guard, also of one already
  released or dropped (an in-flight heartbeat), may arrive at any time and in any order.
  Times are milliseconds of the Redis clock. A key is live up to and including its
  expiry instant. The hypothesis of the source is that tokens are never reused.
*/
module LeaseLock {
  import opened Wrappers

  datatype Entry = Entry(token: string, expiresAt: nat)

  type Store = map<string, Entry>

  // GET: an expired key reads as absent.
  function Get(store: Store, key: string, now: nat): Option<string> {
    if key in store && now <= store[key].expiresAt then Some(store[key].token) else None
  }

  // SET key token NX PX ttl; Redis rejects a zero expiry.
  function SetNxPx(store: Store, key: string, token: string, ttl: nat, now: nat): (Store, bool) {
    if ttl == 0 || Get(store, key, now).Some? then (store, false)
    else (store[key := Entry(token, now + ttl)], true)
  }

  // EXTEND_SCRIPT
  function ExtendScript(store: Store, key: string, token: string, ttl: nat, now: nat): (Store, bool) {
    if Get(store, key, now) == Some(token) then (store[key := Entry(token, now + ttl)], true) else (store, false)
  }

  // RELEASE_SCRIPT
  function ReleaseScript(store: Store, key: string, token: string, now: nat): (Store, bool) {
    if Get(store, key, now) == Some(token) then (store - {key}, true) else (store, false)
  }

  /** The server: one mutable store and a clock that only moves forward. */
  class Redis {
    var store: Store
    var now: nat

    constructor ()
      ensures store == map[] && now == 0
    {
      store, now := map[], 0;
    }

    method Tick(d: nat)
      modifies this
      ensures now == old(now) + d && store == old(store)
    {
      now := now + d;
    }

    method Set(key: string, token: string, ttl: nat) returns (acquired: bool)
      modifies this`store
      ensures (store, acquired) == SetNxPx(old(store), key, token, ttl, now)
    {
      if ttl == 0 {
        return false;
      }
      if key in store {
        if now <= store[key].expiresAt {
          return false;
        }
        store := store - {key};
      }
      store := store[key := Entry(token, now + ttl)];
      assert store == old(store)[key := Entry(token, now + ttl)];
      return true;
    }

    method Extend(key: string, token: string, ttl: nat) returns (renewed: bool)
      modifies this`store
      ensures (store, renewed) == ExtendScript(old(store), key, token, ttl, now)
    {
      if Get(store, key, now) == Some(token) {
        store := store[key := Entry(store[key].token, now + ttl)];
        return true;
      }
      return false;
    }

    method Release(key: string, token: string) returns (released: bool)
      modifies this`store
      ensures (store, released) == ReleaseScript(old(store), key, token, now)
    {
      if Get(store, key, now) == Some(token) {
        store := store - {key};
        return true;
      }
      return false;
    }
  }

  // ----- The protocol -----

  // A guard returned by acquire; `renewedAt` is the Redis time of its last successful SET or PEXPIRE.
  datatype Guard = Guard(key: string, ttl: nat, renewedAt: nat, state: GuardState)

  // A release deletes the entry; a dropped guard leaves it to expire.
  datatype GuardState = Held | Released | Dropped

  datatype System = System(now: nat, store: Store, guards: map<string, Guard>, issued: set<string>)

  datatype Step =
    | Tick(d: nat)
    | Acquire(key: string, token: string, ttl: nat)
    | Extend(token: string)   // a heartbeat of that guard reaches Redis
    | Release(token: string)  // its release reaches Redis; the guard is consumed
    | Drop(token: string)     // the guard goes away without a release

  const Init := System(0, map[], map[], {})

  function Apply(s: System, step: Step): System {
    match step
    case Tick(d) => s.(now := s.now + d)
    case Acquire(key, token, ttl) =>
      var (store, ok) := SetNxPx(s.store, key, token, ttl, s.now);
      var t := s.(store := store, issued := s.issued + {token});
      if ok then t.(guards := s.guards[token := Guard(key, ttl, s.now, Held)]) else t
    case Extend(token) =>
      if token !in s.guards then s
      else
        var g := s.guards[token];
        var (store, ok) := ExtendScript(s.store, g.key, token, g.ttl, s.now);
        if ok then s.(store := store, guards := s.guards[token := g.(renewedAt := s.now)]) else s
    case Release(token) =>
      if token !in s.guards then s
      else
        var g := s.guards[token];
        var (store, _) := ReleaseScript(s.store, g.key, token, s.now);
        s.(store := store, guards := s.guards[token := g.(state := Released)])
    case Drop(token) =>
      if token !in s.guards || !s.guards[token].state.Held? then s
      else s.(guards := s.guards[token := s.guards[token].(state := Dropped)])
  }

  function Run(s: System, steps: seq<Step>): System
    decreases |steps|
  {
    if steps == [] then s else Run(Apply(s, steps[0]), steps[1..])
  }

  // No acquire reuses a token.
  predicate FreshTokens(s: System, steps: seq<Step>)
    decreases |steps|
  {
    steps == [] ||
    ((steps[0].Acquire? ==> steps[0].token !in s.issued) && FreshTokens(Apply(s, steps[0]), steps[1..]))
  }

  // The guard is unreleased and within its TTL of the last successful renewal.
  predicate Holds(s: System, token: string) {
    token in s.guards && s.guards[token].state.Held? && s.now <= s.guards[token].renewedAt + s.guards[token].ttl
  }

  // It keeps others out: held or dropped, but not released, and within that TTL.
  predicate Occupies(s: System, token: string) {
    token in s.guards && !s.guards[token].state.Released? && s.now <= s.guards[token].renewedAt + s.guards[token].ttl
  }

  predicate GuardOk(s: System, t: string)
    requires t in s.guards
  {
    t in s.issued && s.guards[t].ttl > 0 && s.guards[t].renewedAt <= s.now
  }

  // The entry of the guard's key names the guard and expires one TTL after its last renewal.
  predicate OwnsEntry(s: System, t: string)
    requires t in s.guards
  {
    var g := s.guards[t];
    g.key in s.store && s.store[g.key] == Entry(t, g.renewedAt + g.ttl)
  }

  // Every entry was written by the guard it names, and that of a released guard has expired.
  predicate EntryOk(s: System, k: string)
    requires k in s.store
  {
    var t := s.store[k].token;
    && t in s.guards && s.guards[t].key == k && OwnsEntry(s, t)
    && (s.guards[t].state.Released? ==> s.now > s.store[k].expiresAt)
  }

  ghost predicate Consistent(s: System) {
    && (forall t :: t in s.guards ==> GuardOk(s, t))
    && (forall t :: Occupies(s, t) ==> OwnsEntry(s, t))
    && (forall k :: k in s.store ==> EntryOk(s, k))
  }

  lemma {:induction false} AcquireKeepsConsistent(s: System, key: string, token: string, ttl: nat)
    requires Consistent(s) && token !in s.issued
    ensures Consistent(Apply(s, Acquire(key, token, ttl)))
  {
    var s' := Apply(s, Acquire(key, token, ttl));
    assert token !in s.guards by {
      assert token in s.guards ==> GuardOk(s, token);
    }
    forall t | t in s'.guards ensures GuardOk(s', t) {
      assert t != token ==> GuardOk(s, t);
    }
    forall t | Occupies(s', t) ensures OwnsEntry(s', t) {
      assert t != token ==> Occupies(s, t) && OwnsEntry(s, t);
    }
    forall k | k in s'.store ensures EntryOk(s', k) {
      assert k != key ==> EntryOk(s, k);
      if s' != s && s'.store == s.store {
        assert EntryOk(s, k);
      }
    }
  }

  lemma {:induction false} ExtendKeepsConsistent(s: System, token: string)
    requires Consistent(s)
    ensures Consistent(Apply(s, Extend(token)))
  {
    var s' := Apply(s, Extend(token));
    if s' != s {
      var key := s.guards[token].key;
      forall t | t in s'.guards ensures GuardOk(s', t) {
        assert GuardOk(s, t);
      }
      forall t | Occupies(s', t) ensures OwnsEntry(s', t) {
        assert t != token ==> Occupies(s, t) && OwnsEntry(s, t);
      }
      forall k | k in s'.store ensures EntryOk(s', k) {
        assert EntryOk(s, k);
      }
    }
  }

  // Release deletes the guard's own entry or nothing; Drop deletes nothing.
  lemma {:induction false} GiveUpKeepsConsistent(s: System, step: Step)
    requires Consistent(s) && (step.Release? || step.Drop?)
    ensures Consistent(Apply(s, step))
  {
    var s' := Apply(s, step);
    if step.token in s.guards {
      forall t | t in s'.guards ensures GuardOk(s', t) {
        assert GuardOk(s, t);
      }
      forall t | Occupies(s', t) ensures OwnsEntry(s', t) {
        assert Occupies(s, t) && OwnsEntry(s, t);
      }
      forall k | k in s'.store ensures EntryOk(s', k) {
        assert k in s.store && EntryOk(s, k);
      }
    }
  }

  lemma {:induction false} StepKeepsConsistent(s: System, step: Step)
    requires Consistent(s) && (step.Acquire? ==> step.token !in s.issued)
    ensures Consistent(Apply(s, step))
  {
    match step
    case Tick(d) =>
      var s' := s.(now := s.now + d);
      assert forall t :: Occupies(s', t) ==> Occupies(s, t);
      assert forall t :: t in s.guards ==> GuardOk(s, t);
      assert forall k :: k in s.store ==> EntryOk(s, k);
    case Acquire(key, token, ttl) =>
      AcquireKeepsConsistent(s, key, token, ttl);
    case Extend(token) =>
      ExtendKeepsConsistent(s, token);
    case Release(_) =>
      GiveUpKeepsConsistent(s, step);
    case Drop(_) =>
      GiveUpKeepsConsistent(s, step);
  }

  lemma {:induction false} RunKeepsConsistent(s: System, steps: seq<Step>)
    requires Consistent(s) && FreshTokens(s, steps)
    ensures Consistent(Run(s, steps))
    decreases |steps|
  {
    hide Apply, Consistent;
    if steps != [] {
      StepKeepsConsistent(s, steps[0]);
      RunKeepsConsistent(Apply(s, steps[0]), steps[1..]);
    }
  }

  /**
    Timed mutual exclusion: after any interleaving, two guards that both hold a key are
    the same guard.
  */
  lemma {:induction false} MutualExclusion(steps: seq<Step>, t: string, u: string)
    requires FreshTokens(Init, steps)
    requires Holds(Run(Init, steps), t) && Holds(Run(Init, steps), u)
    requires Run(Init, steps).guards[t].key == Run(Init, steps).guards[u].key
    ensures t == u
  {
    assert Consistent(Init);
    RunKeepsConsistent(Init, steps);
    assert Occupies(Run(Init, steps), t) && Occupies(Run(Init, steps), u);
  }

  /** Commands of a guard never touch a lease it does not own: not its holder, entry or expiry. */
  lemma {:induction false} ForeignCommandsAreHarmless(steps: seq<Step>, step: Step, t: string)
    requires FreshTokens(Init, steps) && Holds(Run(Init, steps), t)
    requires step.Extend? || step.Release? || step.Drop?
    requires step.token != t
    ensures var s := Run(Init, steps);
      var s' := Apply(s, step);
      Holds(s', t) && s'.guards[t] == s.guards[t] && OwnsEntry(s, t) && OwnsEntry(s', t)
  {
    hide Run;
    assert Consistent(Init);
    RunKeepsConsistent(Init, steps);
    StepKeepsConsistent(Run(Init, steps), step);
    assert Occupies(Run(Init, steps), t) && Occupies(Apply(Run(Init, steps), step), t);
  }

  /**
    What the two scripts report: they succeed exactly for a guard that still occupies its
    key, be it held or dropped.
  */
  lemma {:induction false} ScriptsSucceedIff(steps: seq<Step>, t: string)
    requires FreshTokens(Init, steps) && t in Run(Init, steps).guards
    ensures var s := Run(Init, steps);
      var g := s.guards[t];
      && (ReleaseScript(s.store, g.key, t, s.now).1 <==> Occupies(s, t))
      && (ExtendScript(s.store, g.key, t, g.ttl, s.now).1 <==> Occupies(s, t))
  {
    hide Run;
    assert Consistent(Init);
    RunKeepsConsistent(Init, steps);
    var s := Run(Init, steps);
    assert Occupies(s, t) ==> OwnsEntry(s, t);
    var k := s.guards[t].key;
    assert k in s.store ==> EntryOk(s, k);
  }

  /**
    A holder's release frees its key at once: it reports success, leaves no entry of the key
    and every other key as it was, and the next acquire with a fresh token succeeds.
  */
  lemma {:induction false} ReleaseFrees(steps: seq<Step>, t: string, token: string, ttl: nat)
    requires FreshTokens(Init, steps) && Holds(Run(Init, steps), t)
    requires token !in Run(Init, steps).issued && ttl > 0
    ensures var s := Run(Init, steps);
      var s' := Apply(s, Release(t));
      var key := s.guards[t].key;
      && ReleaseScript(s.store, key, t, s.now).1
      && key !in s'.store && !Holds(s', t)
      && (forall k :: k != key ==> (k in s'.store <==> k in s.store) && (k in s.store ==> s'.store[k] == s.store[k]))
      && Holds(Apply(s', Acquire(key, token, ttl)), token)
  {
    hide Run;
    assert Consistent(Init);
    RunKeepsConsistent(Init, steps);
    assert Occupies(Run(Init, steps), t);
  }

  // In terms of guards: nobody occupies the key.
  ghost predicate Unoccupied(s: System, key: string) {
    forall t :: t in s.guards && s.guards[t].key == key ==>
      s.guards[t].state.Released? || s.now > s.guards[t].renewedAt + s.guards[t].ttl
  }

  /** An acquire succeeds exactly when every guard of the key was released or is past its TTL. */
  lemma {:induction false} AcquireIffUnoccupied(steps: seq<Step>, key: string, token: string, ttl: nat)
    requires FreshTokens(Init, steps) && token !in Run(Init, steps).issued && ttl > 0
    ensures var s := Run(Init, steps);
      var s' := Apply(s, Acquire(key, token, ttl));
      && (token in s'.guards <==> Unoccupied(s, key))
      && (token in s'.guards ==> s'.guards[token] == Guard(key, ttl, s.now, Held) && Holds(s', token))
  {
    hide Run;
    assert Consistent(Init);
    RunKeepsConsistent(Init, steps);
    var s := Run(Init, steps);
    assert token in s.guards ==> GuardOk(s, token);
    assert key in s.store ==> EntryOk(s, key);
    if !Unoccupied(s, key) {
      var t :| t in s.guards && s.guards[t].key == key
        && !(s.guards[t].state.Released? || s.now > s.guards[t].renewedAt + s.guards[t].ttl);
      assert Occupies(s, t) && OwnsEntry(s, t);
    }
  }

  /** While some guard holds the key an acquire fails; it succeeds when no live entry is left. */
  lemma {:induction false} AcquireIffFree(steps: seq<Step>, key: string, token: string, ttl: nat)
    requires FreshTokens(Init, steps) && token !in Run(Init, steps).issued && ttl > 0
    ensures var s := Run(Init, steps);
      var acquired := token in Apply(s, Acquire(key, token, ttl)).guards;
      && (acquired <==> Get(s.store, key, s.now).None?)
      && (acquired ==> forall t :: Holds(s, t) ==> s.guards[t].key != key)
  {
    hide Run;
    assert Consistent(Init);
    RunKeepsConsistent(Init, steps);
    var s := Run(Init, steps);
    assert token in s.guards ==> GuardOk(s, token);
    assert forall t :: Holds(s, t) ==> Occupies(s, t) && OwnsEntry(s, t);
  }

  // Heartbeats of `token` arrive before `left` runs out, and it is neither released nor dropped.
  predicate Timely(steps: seq<Step>, token: string, ttl: nat, left: nat) {
    steps == [] ||
    match steps[0]
    case Tick(d) => d <= left && Timely(steps[1..], token, ttl, left - d)
    case Acquire(_, _, _) => Timely(steps[1..], token, ttl, left)
    case Extend(t) => Timely(steps[1..], token, ttl, if t == token then ttl else left)
    case Release(t) => t != token && Timely(steps[1..], token, ttl, left)
    case Drop(t) => t != token && Timely(steps[1..], token, ttl, left)
  }

  lemma {:induction false} HolderStep(s: System, step: Step, token: string)
    requires Consistent(s) && Holds(s, token)
    requires step.Acquire? ==> step.token !in s.issued
    requires step.Tick? ==> step.d <= s.guards[token].renewedAt + s.guards[token].ttl - s.now
    requires !(step.Release? && step.token == token) && !(step.Drop? && step.token == token)
    ensures var s' := Apply(s, step);
      && Holds(s', token) && s'.guards[token].key == s.guards[token].key && s'.guards[token].ttl == s.guards[token].ttl
      && s'.now == s.now + (if step.Tick? then step.d else 0)
      && s'.guards[token].renewedAt == (if step == Extend(token) then s.now else s.guards[token].renewedAt)
      && (forall t :: t in s'.guards && t !in s.guards ==> s'.guards[t].key != s.guards[token].key)
      && (forall t :: t in s.guards ==> t in s'.guards && s'.guards[t].key == s.guards[t].key)
  {
    assert Occupies(s, token) && GuardOk(s, token) && OwnsEntry(s, token);
  }

  /**
    Heartbeats keep the lock: as long as they reach Redis in time, the guard holds its key
    throughout, and nobody else ever acquires it.
  */
  lemma {:induction false} TimelyHeartbeatsKeepTheLock(s: System, steps: seq<Step>, token: string)
    requires Consistent(s) && FreshTokens(s, steps) && Holds(s, token)
    requires Timely(steps, token, s.guards[token].ttl, s.guards[token].renewedAt + s.guards[token].ttl - s.now)
    ensures var s' := Run(s, steps);
      && Holds(s', token) && s'.guards[token].key == s.guards[token].key
      && (forall t :: t in s'.guards && t !in s.guards ==> s'.guards[t].key != s.guards[token].key)
      && (forall t :: t in s.guards ==> t in s'.guards && s'.guards[t].key == s.guards[t].key)
    decreases |steps|
  {
    hide Apply, Consistent;
    if steps != [] {
      StepKeepsConsistent(s, steps[0]);
      HolderStep(s, steps[0], token);
      TimelyHeartbeatsKeepTheLock(Apply(s, steps[0]), steps[1..], token);
    }
  }
}
