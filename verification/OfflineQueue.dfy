/**
  The offline draft queue of apps/frontend/lib/offlineQueue.ts and the drain loop of
  apps/frontend/lib/syncEngine.ts, in one browser tab.

  The first part is the draft store with its operations. The second is the tab as a state
  machine with one step per await, so that a crash, a user action or a store error can
  fall between any two of them.

  `claimDraft`, `markDraftFailed` and `requeueDraft` set `onsuccess` on a get request and
  return it to `withStore`, which assigns `onsuccess` again before the event fires. Their
  update therefore never runs. `AsWritten` is that behaviour. `Intended` is the variant in
  which the update runs; it is not the code, and only results that name it speak of it.
*/
module OfflineQueue {
  import opened Wrappers
  import opened StableSort

  datatype Status = Pending | Syncing | Failed

  datatype Draft = Draft(payload: string, createdAt: nat, status: Status, lockExpiresAt: Option<nat>,
                         lastError: Option<string>, attemptCount: nat)

  type Store = map<nat, Draft>

  const LOCK_MS: nat := 60_000

  // ----- Store operations -----

  function NewDraft(payload: string, now: nat): Draft {
    Draft(payload, now, Pending, None, None, 0)
  }

  // The updates that the three get-and-put operations are written to make.
  datatype Update = ToSyncing(now: nat) | ToFailed(error: string) | ToPending(error: string)

  function Updated(d: Draft, u: Update): Draft {
    match u
    case ToSyncing(now) => d.(status := Syncing, lockExpiresAt := Some(now + LOCK_MS))
    case ToFailed(error) =>
      d.(status := Failed, lockExpiresAt := None, lastError := Some(error), attemptCount := d.attemptCount + 1)
    case ToPending(error) =>
      d.(status := Pending, lockExpiresAt := None, lastError := Some(error), attemptCount := d.attemptCount + 1)
  }

  // The onsuccess handler of the get request: update and put back, or just resolve the promise.
  datatype Handler = PutBack(update: Update) | Resolve

  function OnSuccess(s: Store, id: nat, h: Handler): Store {
    if h.PutBack? && id in s then s[id := Updated(s[id], h.update)] else s
  }

  datatype Wiring = AsWritten | Intended

  // The handler in place when the event fires.
  function Installed(wiring: Wiring, u: Update): Handler {
    if wiring.AsWritten? then Resolve else PutBack(u)
  }

  function GetAndPut(wiring: Wiring, s: Store, id: nat, u: Update): Store {
    OnSuccess(s, id, Installed(wiring, u))
  }

  function Unlocked(d: Draft, now: nat): Draft {
    if d.status == Syncing && d.lockExpiresAt.Some? && d.lockExpiresAt.value < now
    then d.(status := Pending, lockExpiresAt := None) else d
  }

  function ReleaseExpired(s: Store, now: nat): Store {
    map id | id in s :: Unlocked(s[id], now)
  }

  datatype Item = Item(id: nat, draft: Draft)

  // Creation time, then insertion order.
  predicate Before(a: Item, b: Item) {
    a.draft.createdAt < b.draft.createdAt || (a.draft.createdAt == b.draft.createdAt && a.id < b.id)
  }

  ghost predicate InOrder(items: seq<Item>) {
    forall i, j :: 0 <= i < j < |items| ==> Before(items[i], items[j])
  }

  // `items` lists exactly the drafts of the store, oldest first.
  ghost predicate ListsAll(s: Store, items: seq<Item>) {
    && InOrder(items)
    && (forall i :: 0 <= i < |items| ==> items[i].id in s && s[items[i].id] == items[i].draft)
    && (forall id :: id in s ==> Item(id, s[id]) in items)
  }

  // ... exactly the pending ones.
  ghost predicate ListsPending(s: Store, items: seq<Item>) {
    && InOrder(items)
    && (forall i :: 0 <= i < |items| ==>
          items[i].id in s && s[items[i].id] == items[i].draft && items[i].draft.status == Pending)
    && (forall id :: id in s && s[id].status == Pending ==> Item(id, s[id]) in items)
  }

  function ByCreation(): Item -> Key {
    (item: Item) => Fin(item.draft.createdAt as real)
  }

  // ----- Ordering by a stable sort -----

  ghost predicate Ascending(items: seq<Item>) {
    forall i, j :: 0 <= i < j < |items| ==> items[i].id < items[j].id
  }

  lemma {:induction false} WithKeyMember<T>(s: seq<T>, key: T -> Key, k: Key, x: T)
    ensures x in WithKey(s, key, k) <==> x in s && key(x) == k
  {
    if s != [] {
      WithKeyMember(s[1..], key, k, x);
      assert s == [s[0]] + s[1..];
    }
  }

  lemma {:induction false} WithKeyAscending(s: seq<Item>, k: Key)
    requires Ascending(s)
    ensures Ascending(WithKey(s, ByCreation(), k))
  {
    if s != [] {
      var rest := WithKey(s[1..], ByCreation(), k);
      WithKeyAscending(s[1..], k);
      forall j | 0 <= j < |rest| ensures s[0].id < rest[j].id {
        WithKeyMember(s[1..], ByCreation(), k, rest[j]);
        assert rest[j] in rest;
        var m :| 0 <= m < |s[1..]| && s[1..][m] == rest[j];
        assert s[m + 1] == rest[j];
      }
    }
  }

  // Two elements of one key keep their relative position in the list of that key.
  lemma {:induction false} SameKeyPositions(s: seq<Item>, i: nat, j: nat) returns (p: nat, q: nat)
    requires i < j < |s| && ByCreation()(s[i]) == ByCreation()(s[j])
    ensures var l := WithKey(s, ByCreation(), ByCreation()(s[i]));
      p < q < |l| && l[p] == s[i] && l[q] == s[j]
    decreases |s|
  {
    var k := ByCreation()(s[i]);
    var rest := WithKey(s[1..], ByCreation(), k);
    if i == 0 {
      WithKeyMember(s[1..], ByCreation(), k, s[j]);
      assert s[1..][j - 1] == s[j];
      assert s[j] in rest;
      var m :| 0 <= m < |rest| && rest[m] == s[j];
      p, q := 0, m + 1;
    } else {
      assert s[1..][i - 1] == s[i] && s[1..][j - 1] == s[j];
      p, q := SameKeyPositions(s[1..], i - 1, j - 1);
      if ByCreation()(s[0]) == k {
        p, q := p + 1, q + 1;
      }
    }
  }

  /** Sorting the id-ordered records by creation time, stably, gives creation order with ties by id. */
  lemma {:induction false} StableSortOrders(input: seq<Item>, output: seq<Item>)
    requires Ascending(input) && StablySorted(input, ByCreation(), output)
    ensures InOrder(output)
  {
    forall i, j | 0 <= i < j < |output| ensures Before(output[i], output[j]) {
      assert Leq(ByCreation()(output[i]), ByCreation()(output[j]));
      if output[i].draft.createdAt == output[j].draft.createdAt {
        var p, q := SameKeyPositions(output, i, j);
        var k := ByCreation()(output[i]);
        assert WithKey(output, ByCreation(), k) == WithKey(input, ByCreation(), k);
        WithKeyAscending(input, k);
      }
    }
  }

  // ----- The tab as a state machine -----

  // The answer to a POST: 2xx, 4xx, or neither (5xx, no response; the server may still have acted).
  datatype Reply = Accepted | Rejected(message: string) | Transient(message: string)

  datatype Phase =
    | Idle
    | Starting                                   // awaiting releaseExpiredLocks
    | Listing                                    // awaiting getQueuedDrafts
    | Draining(rest: seq<Item>)                  // at the head of the loop
    | Posting(item: Item, rest: seq<Item>)       // claimed, awaiting the POST
    | Settling(item: Item, reply: Reply, rest: seq<Item>)  // awaiting the store update

  datatype Entry =
    | Listed
    | Posted(item: Item, reply: Reply)
    | Delivered(id: nat)
    | FailureSettled(id: nat)
    | Discarded(id: nat)
    | Cleared(upTo: nat)
    | Fault

  datatype World = World(wiring: Wiring, store: Store, nextId: nat, now: nat, syncing: bool, phase: Phase,
                         log: seq<Entry>)

  function Fresh(wiring: Wiring): World {
    World(wiring, map[], 1, 0, false, Idle, [])
  }

  datatype Step =
    | Tick(d: nat)
    | Enqueue(payload: string)
    | Discard(id: nat)
    | ClearAll
    | StartDrain
    | ReleaseLocks
    | List(items: seq<Item>)
    | ClaimNext(ok: bool)
    | Post(reply: Reply)
    | Settle(ok: bool)
    | Finish
    | SetupError
    | Crash

  // The updates after the POST. A failing removeDraft lands in the catch block and requeues.
  function SettleEffect(w: World, item: Item, reply: Reply, rest: seq<Item>, ok: bool): World {
    match reply
    case Accepted =>
      if ok then w.(store := w.store - {item.id}, phase := Draining(rest), log := w.log + [Delivered(item.id)])
      else w.(phase := Settling(item, Transient("Network error"), rest), log := w.log + [Fault])
    case Rejected(message) =>
      if ok then w.(store := GetAndPut(w.wiring, w.store, item.id, ToFailed(message)), phase := Draining(rest),
                    log := w.log + [FailureSettled(item.id)])
      else w.(phase := Idle, syncing := false, log := w.log + [Fault])
    case Transient(message) =>
      if ok then w.(store := GetAndPut(w.wiring, w.store, item.id, ToPending(message)), phase := Draining(rest),
                    log := w.log + [FailureSettled(item.id)])
      else w.(phase := Idle, syncing := false, log := w.log + [Fault])
  }

  // A step that is not enabled changes nothing.
  ghost function Apply(w: World, step: Step): World {
    match step
    case Tick(d) => w.(now := w.now + d)
    case Enqueue(payload) => w.(store := w.store[w.nextId := NewDraft(payload, w.now)], nextId := w.nextId + 1)
    case Discard(id) => w.(store := w.store - {id}, log := w.log + [Discarded(id)])
    case ClearAll => w.(store := map[], log := w.log + [Cleared(w.nextId)])
    case StartDrain => if w.syncing then w else w.(syncing := true, phase := Starting)
    case ReleaseLocks =>
      if w.phase.Starting? then w.(store := ReleaseExpired(w.store, w.now), phase := Listing) else w
    case List(items) =>
      if w.phase.Listing? && ListsPending(w.store, items)
      then w.(phase := Draining(items), log := w.log + [Listed]) else w
    case ClaimNext(ok) =>
      if w.phase.Draining? && w.phase.rest != [] then
        var item, rest := w.phase.rest[0], w.phase.rest[1..];
        if ok then w.(store := GetAndPut(w.wiring, w.store, item.id, ToSyncing(w.now)), phase := Posting(item, rest))
        else w.(phase := Draining(rest), log := w.log + [Fault])
      else w
    case Post(reply) =>
      if w.phase.Posting?
      then w.(phase := Settling(w.phase.item, reply, w.phase.rest), log := w.log + [Posted(w.phase.item, reply)])
      else w
    case Settle(ok) =>
      if w.phase.Settling? then SettleEffect(w, w.phase.item, w.phase.reply, w.phase.rest, ok) else w
    case Finish =>
      if w.phase.Draining? && w.phase.rest == [] then w.(phase := Idle, syncing := false) else w
    // releaseExpiredLocks and getQueuedDrafts are awaited outside the try: the flag stays set
    case SetupError =>
      if w.phase.Starting? || w.phase.Listing? then w.(phase := Idle, log := w.log + [Fault]) else w
    case Crash => w.(phase := Idle, syncing := false, log := w.log + [Fault])
  }

  ghost function Run(w: World, steps: seq<Step>): World
    decreases |steps|
  {
    if steps == [] then w else Run(Apply(w, steps[0]), steps[1..])
  }

  // The drafts the running drain has still to post.
  function Backlog(p: Phase): seq<Item> {
    match p
    case Draining(rest) => rest
    case Posting(item, rest) => [item] + rest
    case Settling(_, _, rest) => rest
    case _ => []
  }

  // The draft posted but not settled, if any, and the backlog behind it.
  function Unsettled(p: Phase): seq<Item> {
    if p.Settling? then [p.item] + p.rest else Backlog(p)
  }

  ghost predicate Mentions(items: seq<Item>, id: nat) {
    exists i :: 0 <= i < |items| && items[i].id == id
  }

  ghost predicate DistinctIds(items: seq<Item>) {
    forall i, j :: 0 <= i < j < |items| ==> items[i].id != items[j].id
  }

  lemma {:induction false} SnapshotIdsDistinct(s: Store, items: seq<Item>)
    requires ListsPending(s, items)
    ensures DistinctIds(items)
  {
    forall i, j | 0 <= i < j < |items| ensures items[i].id != items[j].id {
      assert Before(items[i], items[j]);
    }
  }

  // ----- Invariants of every reachable state -----

  predicate HasEntry(log: seq<Entry>, e: Entry) { e in log }

  ghost predicate Accounted(w: World, id: nat) {
    || id in w.store
    || (exists item :: HasEntry(w.log, Posted(item, Accepted)) && item.id == id)
    || HasEntry(w.log, Discarded(id))
    || (exists n :: HasEntry(w.log, Cleared(n)) && id < n)
  }

  function FailureCount(log: seq<Entry>, id: nat): nat {
    if log == [] then 0
    else FailureCount(log[..|log| - 1], id) + if log[|log| - 1] == FailureSettled(id) then 1 else 0
  }

  // Posts since the drafts were last listed, in order.
  function PostsSinceListing(log: seq<Entry>): seq<Item> {
    if log == [] then []
    else
      match log[|log| - 1]
      case Listed => []
      case Posted(item, _) => PostsSinceListing(log[..|log| - 1]) + [item]
      case _ => PostsSinceListing(log[..|log| - 1])
  }

  ghost predicate WellFormed(w: World) {
    && w.nextId >= 1
    && (!w.phase.Idle? ==> w.syncing)
    && (forall id :: id in w.store ==> 1 <= id < w.nextId)
    && (forall i :: 0 <= i < |Unsettled(w.phase)| ==> 1 <= Unsettled(w.phase)[i].id < w.nextId)
    && InOrder(Unsettled(w.phase)) && DistinctIds(Unsettled(w.phase))
    && (w.phase.Settling? && w.phase.reply.Accepted? ==> HasEntry(w.log, Posted(w.phase.item, Accepted)))
  }

  ghost predicate AllAccounted(w: World) {
    forall id :: 1 <= id < w.nextId ==> Accounted(w, id)
  }

  ghost predicate CountsMatch(w: World) {
    forall id :: id in w.store ==> w.store[id].attemptCount == FailureCount(w.log, id)
  }

  // The drain's posts so far, followed by what it has left, are in creation order.
  ghost predicate PostsOrdered(w: World) {
    && InOrder(PostsSinceListing(w.log))
    && InOrder(PostsSinceListing(w.log) + Backlog(w.phase))
  }

  // A step leaves the unsettled drafts alone, drops the first, drops all, or lists anew.
  lemma {:induction false} UnsettledStep(w: World, step: Step)
    ensures var u, u' := Unsettled(w.phase), Unsettled(Apply(w, step).phase);
      || u' == u
      || u' == []
      || (u != [] && u' == u[1..])
      || (step.List? && w.phase.Listing? && ListsPending(w.store, step.items) && u' == step.items)
  {
    hide ListsPending, ReleaseExpired;
    var u, u' := Unsettled(w.phase), Unsettled(Apply(w, step).phase);
    match step
    case ClaimNext(ok) =>
      if w.phase.Draining? && w.phase.rest != [] {
        assert u == [u[0]] + u[1..];
      }
    case Settle(ok) =>
      if w.phase.Settling? {
        assert u[1..] == w.phase.rest;
      }
    case _ =>
  }

  lemma {:induction false} TailInOrder(items: seq<Item>)
    requires items != [] && InOrder(items) && DistinctIds(items)
    ensures InOrder(items[1..]) && DistinctIds(items[1..])
    ensures forall i :: 0 <= i < |items[1..]| ==> items[1..][i] == items[i + 1]
  {
  }

  lemma {:induction false} NoneInOrder()
    ensures InOrder([]) && DistinctIds([])
  {
  }

  lemma {:induction false} StepKeepsWellFormed(w: World, step: Step)
    requires WellFormed(w)
    ensures WellFormed(Apply(w, step))
  {
    hide Unsettled, InOrder, DistinctIds;
    var w' := Apply(w, step);
    UnsettledStep(w, step);
    LogGrows(w, step);
    var u, u' := Unsettled(w.phase), Unsettled(w'.phase);
    if step.List? && u' == step.items && ListsPending(w.store, step.items) {
      SnapshotIdsDistinct(w.store, step.items);
      assert forall i :: 0 <= i < |u'| ==> u'[i].id in w.store;
    } else if u != [] && u' == u[1..] {
      TailInOrder(u);
    } else if u' == [] {
      NoneInOrder();
    }
    if step.Post? && w.phase.Posting? {
      assert w'.log[|w.log|] == Posted(w.phase.item, step.reply);
    }
  }

  // The log entry a step writes, if any.
  ghost function Added(w: World, step: Step): Option<Entry> {
    var log' := Apply(w, step).log;
    if |log'| > |w.log| then Some(log'[|w.log|]) else None
  }

  lemma {:induction false} LogGrows(w: World, step: Step)
    ensures var w' := Apply(w, step);
      && w'.log == (if Added(w, step).Some? then w.log + [Added(w, step).value] else w.log)
      && (forall e :: HasEntry(w.log, e) ==> HasEntry(w'.log, e))
      && w'.nextId >= w.nextId
  {
    hide ListsPending, ReleaseExpired;
  }

  lemma {:induction false} AccountedGrows(w: World, w': World, id: nat)
    requires Accounted(w, id) && (id in w.store ==> id in w'.store)
    requires forall e :: HasEntry(w.log, e) ==> HasEntry(w'.log, e)
    ensures Accounted(w', id)
  {
  }

  lemma {:induction false} StepKeepsAccounts(w: World, step: Step)
    requires WellFormed(w) && AllAccounted(w)
    ensures AllAccounted(Apply(w, step))
  {
    hide Accounted, PostsSinceListing, FailureCount;
    var w' := Apply(w, step);
    assert forall e :: HasEntry(w.log, e) ==> HasEntry(w'.log, e);
    forall id | 1 <= id < w'.nextId ensures Accounted(w', id) {
      if id < w.nextId && (id in w.store ==> id in w'.store) {
        AccountedGrows(w, w', id);
      } else {
        NewlyGone(w, step, id);
      }
    }
  }

  // A draft that leaves the store was delivered, discarded or cleared by that very step.
  lemma {:induction false} NewlyGone(w: World, step: Step, id: nat)
    requires WellFormed(w)
    requires id == w.nextId || id in w.store
    requires id == w.nextId ==> id < Apply(w, step).nextId
    requires id in w.store ==> id !in Apply(w, step).store
    ensures Accounted(Apply(w, step), id)
  {
    hide PostsSinceListing, FailureCount;
    var w' := Apply(w, step);
    match step
    case Discard(d) => assert HasEntry(w'.log, Discarded(id));
    case ClearAll => assert HasEntry(w'.log, Cleared(w.nextId));
    case Settle(ok) =>
      var item := w.phase.item;
      assert item.id == id;
      assert HasEntry(w.log, Posted(item, Accepted));
      assert HasEntry(w'.log, Posted(item, Accepted));
    case _ =>
  }

  lemma {:induction false} CountSnoc(log: seq<Entry>, e: Entry, id: nat)
    ensures FailureCount(log + [e], id) == FailureCount(log, id) + if e == FailureSettled(id) then 1 else 0
  {
    assert (log + [e])[..|log|] == log;
  }

  // What a step does to one draft's counter.
  lemma {:induction false} CounterStep(w: World, step: Step, id: nat)
    requires WellFormed(w)
    ensures var w' := Apply(w, step);
      var settled := if Added(w, step) == Some(FailureSettled(id)) then 1 else 0;
      var counted := if w.wiring.Intended? then settled else 0;
      && (id in w'.store && id in w.store ==> w'.store[id].attemptCount == w.store[id].attemptCount + counted)
      && (id in w'.store && id !in w.store ==> id == w.nextId && w'.store[id].attemptCount == 0 && settled == 0)
      && (settled == 1 ==> id < w.nextId)
  {
    hide ListsPending, InOrder, DistinctIds, HasEntry;
    if w.phase.Settling? {
      assert Unsettled(w.phase)[0] == w.phase.item;
    }
  }

  lemma {:induction false} StepKeepsCounts(w: World, step: Step)
    requires WellFormed(w) && NoEarlyFailures(w)
    ensures NoEarlyFailures(Apply(w, step))
    ensures w.wiring.Intended? && CountsMatch(w) ==> CountsMatch(Apply(w, step))
  {
    hide FailureCount, Apply, WellFormed, HasEntry, Added;
    var w' := Apply(w, step);
    LogGrows(w, step);
    forall id ensures FailureCount(w'.log, id) == FailureCount(w.log, id)
      + if Added(w, step) == Some(FailureSettled(id)) then 1 else 0
    {
      if Added(w, step).Some? {
        CountSnoc(w.log, Added(w, step).value, id);
      }
    }
    forall id | id in w'.store && w.wiring.Intended? && CountsMatch(w)
      ensures w'.store[id].attemptCount == FailureCount(w'.log, id)
    {
      CounterStep(w, step, id);
    }
    forall id | id >= w'.nextId ensures FailureCount(w'.log, id) == 0 {
      CounterStep(w, step, id);
    }
  }

  // A draft as enqueueDraft left it.
  predicate Untouched(d: Draft) {
    d == NewDraft(d.payload, d.createdAt)
  }

  ghost predicate AllUntouched(w: World) {
    forall id :: id in w.store ==> Untouched(w.store[id])
  }

  lemma {:induction false} StepKeepsUntouched(w: World, step: Step)
    requires w.wiring.AsWritten? && AllUntouched(w)
    ensures AllUntouched(Apply(w, step))
  {
    hide ListsPending;
  }

  // Nothing is recorded against an id before it exists.
  ghost predicate NoEarlyFailures(w: World) {
    forall id :: id >= w.nextId ==> FailureCount(w.log, id) == 0
  }

  lemma {:induction false} PostsSnoc(log: seq<Entry>, e: Entry)
    ensures PostsSinceListing(log + [e]) ==
      match e
      case Listed => []
      case Posted(item, _) => PostsSinceListing(log) + [item]
      case _ => PostsSinceListing(log)
  {
    assert (log + [e])[..|log|] == log;
  }

  // What a step does to the posts since the last listing, and to the backlog with them.
  lemma {:induction false} PostsStep(w: World, step: Step)
    ensures PostsSinceListing(Apply(w, step).log) ==
      if step.List? && w.phase.Listing? && ListsPending(w.store, step.items) then []
      else if step.Post? && w.phase.Posting? then PostsSinceListing(w.log) + [w.phase.item]
      else PostsSinceListing(w.log)
  {
    hide PostsSinceListing, ListsPending, ReleaseExpired, GetAndPut, HasEntry;
    LogGrows(w, step);
    if Added(w, step).Some? {
      PostsSnoc(w.log, Added(w, step).value);
    }
  }

  // Posts plus backlog: unchanged, cut short, with one skipped, or restarted.
  lemma {:induction false} OrderStep(w: World, step: Step)
    ensures var w' := Apply(w, step);
      var (posts, posts') := (PostsSinceListing(w.log), PostsSinceListing(w'.log));
      var (all, all') := (posts + Backlog(w.phase), posts' + Backlog(w'.phase));
      || all' == all
      || all' == posts
      || (w.phase.Draining? && w.phase.rest != [] && all' == posts + w.phase.rest[1..])
      || (step.List? && ListsPending(w.store, step.items) && all' == step.items)
  {
    hide PostsSinceListing, ListsPending, ReleaseExpired, GetAndPut;
    var posts := PostsSinceListing(w.log);
    PostsStep(w, step);
    assert posts + [] == posts;
    match step
    case Post(reply) =>
      if w.phase.Posting? {
        assert posts + [w.phase.item] + w.phase.rest == posts + ([w.phase.item] + w.phase.rest);
      }
    case ClaimNext(ok) =>
      if w.phase.Draining? && w.phase.rest != [] {
        assert w.phase.rest == [w.phase.rest[0]] + w.phase.rest[1..];
      }
    case _ =>
  }

  lemma {:induction false} SkipKeepsOrder(posts: seq<Item>, rest: seq<Item>)
    requires rest != [] && InOrder(posts + rest)
    ensures InOrder(posts + rest[1..]) && InOrder(posts)
  {
    var all, fewer := posts + rest, posts + rest[1..];
    forall i, j | 0 <= i < j < |fewer| ensures Before(fewer[i], fewer[j]) {
      var i' := if i < |posts| then i else i + 1;
      var j' := if j < |posts| then j else j + 1;
      assert all[i'] == fewer[i] && all[j'] == fewer[j];
    }
    forall i, j | 0 <= i < j < |posts| ensures Before(posts[i], posts[j]) {
      assert all[i] == posts[i] && all[j] == posts[j];
    }
  }

  lemma {:induction false} PrefixInOrder(posts: seq<Item>, rest: seq<Item>)
    requires InOrder(posts + rest)
    ensures InOrder(posts)
  {
    if rest == [] {
      assert posts + rest == posts;
    } else {
      SkipKeepsOrder(posts, rest);
    }
  }

  lemma {:induction false} StepKeepsOrder(w: World, step: Step)
    requires PostsOrdered(w)
    ensures PostsOrdered(Apply(w, step))
  {
    hide PostsSinceListing, Apply, InOrder, Backlog;
    var posts := PostsSinceListing(w.log);
    OrderStep(w, step);
    PrefixInOrder(posts, Backlog(w.phase));
    if w.phase.Draining? && w.phase.rest != [] {
      DrainingBacklog(w.phase);
      SkipKeepsOrder(posts, w.phase.rest);
    }
    var w' := Apply(w, step);
    assert InOrder(PostsSinceListing(w'.log) + Backlog(w'.phase));
    PrefixInOrder(PostsSinceListing(w'.log), Backlog(w'.phase));
  }

  lemma {:induction false} DrainingBacklog(p: Phase)
    requires p.Draining?
    ensures Backlog(p) == p.rest
  {
  }

  ghost predicate Invariant(w: World) {
    && WellFormed(w) && AllAccounted(w) && NoEarlyFailures(w) && PostsOrdered(w)
    && (w.wiring.AsWritten? ==> AllUntouched(w))
    && (w.wiring.Intended? ==> CountsMatch(w))
  }

  lemma {:induction false} InvariantInitially(wiring: Wiring)
    ensures Invariant(Fresh(wiring))
  {
  }

  lemma {:induction false} StepKeepsInvariant(w: World, step: Step)
    requires Invariant(w)
    ensures Invariant(Apply(w, step)) && Apply(w, step).wiring == w.wiring
  {
    hide WellFormed, AllAccounted, CountsMatch, NoEarlyFailures, PostsOrdered, AllUntouched;
    StepKeepsWellFormed(w, step);
    StepKeepsAccounts(w, step);
    StepKeepsCounts(w, step);
    StepKeepsOrder(w, step);
    if w.wiring.AsWritten? {
      StepKeepsUntouched(w, step);
    }
  }

  lemma {:induction false} RunKeepsInvariant(w: World, steps: seq<Step>)
    requires Invariant(w)
    ensures Invariant(Run(w, steps)) && Run(w, steps).wiring == w.wiring
    decreases |steps|
  {
    hide Invariant, Apply;
    if steps != [] {
      StepKeepsInvariant(w, steps[0]);
      RunKeepsInvariant(Apply(w, steps[0]), steps[1..]);
    }
  }

  // ----- Results for both wirings -----

  /**
    Crash safety: after any run, every draft ever enqueued is still stored, or a POST of it
    was accepted, or the user discarded it.
  */
  lemma {:induction false} NoDraftIsLost(wiring: Wiring, steps: seq<Step>, id: nat)
    requires 1 <= id < Run(Fresh(wiring), steps).nextId
    ensures Accounted(Run(Fresh(wiring), steps), id)
  {
    hide Run, Accounted;
    InvariantInitially(wiring);
    RunKeepsInvariant(Fresh(wiring), steps);
  }

  /** Each drain posts in creation order, and no draft twice. */
  lemma {:induction false} DrainsPostInOrder(wiring: Wiring, steps: seq<Step>)
    ensures var w := Run(Fresh(wiring), steps);
      && InOrder(PostsSinceListing(w.log))
      && InOrder(PostsSinceListing(w.log) + Backlog(w.phase))
  {
    hide Run;
    InvariantInitially(wiring);
    RunKeepsInvariant(Fresh(wiring), steps);
  }

  // Removed or failed, and not in the backlog of the running drain.
  ghost predicate Dormant(w: World, id: nat) {
    && id < w.nextId
    && !Mentions(Backlog(w.phase), id)
    && (id !in w.store || (w.store[id].status == Failed && !Mentions(Unsettled(w.phase), id)))
  }

  ghost predicate PostOf(e: Entry, id: nat) { e.Posted? && e.item.id == id }

  function PostCount(log: seq<Entry>, id: nat): nat {
    if log == [] then 0
    else PostCount(log[..|log| - 1], id) + if log[|log| - 1].Posted? && log[|log| - 1].item.id == id then 1 else 0
  }

  lemma {:induction false} PostCountSnoc(log: seq<Entry>, e: Entry, id: nat)
    ensures PostCount(log + [e], id) == PostCount(log, id) + if PostOf(e, id) then 1 else 0
  {
    assert (log + [e])[..|log|] == log;
  }

  lemma {:induction false} BacklogStep(w: World, step: Step)
    ensures var b, b' := Backlog(w.phase), Backlog(Apply(w, step).phase);
      || b' == b
      || b' == []
      || (b != [] && b' == b[1..])
      || (step.List? && w.phase.Listing? && ListsPending(w.store, step.items) && b' == step.items)
  {
    hide ListsPending, ReleaseExpired;
    var b := Backlog(w.phase);
    if b != [] {
      assert b == [b[0]] + b[1..];
    }
  }

  lemma {:induction false} StepKeepsUnmentioned(w: World, step: Step, id: nat)
    requires Dormant(w, id)
    ensures !Mentions(Backlog(Apply(w, step).phase), id)
    ensures id in w.store ==> !Mentions(Unsettled(Apply(w, step).phase), id)
  {
    hide Unsettled, Backlog, Apply;
    var u, b := Unsettled(w.phase), Backlog(w.phase);
    UnsettledStep(w, step);
    BacklogStep(w, step);
    if b != [] {
      MentionsTail(b, id);
    }
    if u != [] && !Mentions(u, id) {
      MentionsTail(u, id);
    }
    if step.List? && ListsPending(w.store, step.items) {
      NotListed(w.store, step.items, id);
    }
  }

  lemma {:induction false} StepKeepsDormant(w: World, step: Step, id: nat)
    requires WellFormed(w) && Dormant(w, id)
    ensures Dormant(Apply(w, step), id)
    ensures PostCount(Apply(w, step).log, id) == PostCount(w.log, id)
  {
    hide PostCount, Unsettled, Backlog, HasEntry, Apply, Added;
    StepKeepsUnmentioned(w, step, id);
    LogGrows(w, step);
    if Added(w, step).Some? {
      PostCountSnoc(w.log, Added(w, step).value, id);
      DormantNotPosted(w, step, id);
    }
    DormantStore(w, step, id);
  }

  lemma {:induction false} MentionsTail(items: seq<Item>, id: nat)
    requires items != [] && !Mentions(items, id)
    ensures !Mentions(items[1..], id)
  {
    assert forall i :: 0 <= i < |items[1..]| ==> items[1..][i] == items[i + 1];
  }

  lemma {:induction false} NotListed(s: Store, items: seq<Item>, id: nat)
    requires ListsPending(s, items) && (id !in s || s[id].status == Failed)
    ensures !Mentions(items, id)
  {
  }

  lemma {:induction false} DormantNotPosted(w: World, step: Step, id: nat)
    requires Dormant(w, id) && Added(w, step).Some?
    ensures !PostOf(Added(w, step).value, id)
  {
    hide ListsPending;
    if w.phase.Posting? {
      assert Backlog(w.phase)[0] == w.phase.item;
    }
  }

  lemma {:induction false} DormantStore(w: World, step: Step, id: nat)
    requires WellFormed(w) && Dormant(w, id)
    ensures id < Apply(w, step).nextId
    ensures id !in w.store ==> id !in Apply(w, step).store
    ensures id !in Apply(w, step).store || Apply(w, step).store[id].status == Failed
  {
    hide ListsPending, HasEntry, InOrder, DistinctIds;
    if id in w.store && Unsettled(w.phase) != [] {
      assert Unsettled(w.phase)[0].id != id;
    }
  }

  /**
    A draft that was removed, or (as only Intended can have it) failed, and is not in the
    backlog of a running drain, is never posted again.
  */
  lemma {:induction false} DormantIsNeverPosted(w: World, steps: seq<Step>, id: nat)
    requires Invariant(w) && Dormant(w, id)
    ensures Dormant(Run(w, steps), id)
    ensures PostCount(Run(w, steps).log, id) == PostCount(w.log, id)
    decreases |steps|
  {
    hide Dormant, Apply, PostCount, WellFormed, AllAccounted, CountsMatch, NoEarlyFailures, PostsOrdered, AllUntouched;
    if steps != [] {
      StepKeepsDormant(w, steps[0], id);
      StepKeepsInvariant(w, steps[0]);
      DormantIsNeverPosted(Apply(w, steps[0]), steps[1..], id);
    }
  }

  lemma {:induction false} SettledLeavesBacklog(w: World)
    requires WellFormed(w) && w.phase.Settling?
    ensures !Mentions(w.phase.rest, w.phase.item.id) && w.phase.item.id < w.nextId
  {
    hide InOrder, HasEntry;
    var rest, u := w.phase.rest, Unsettled(w.phase);
    assert u[0] == w.phase.item && u[1..] == rest;
    assert forall i :: 0 <= i < |rest| ==> rest[i] == u[i + 1] && u[0].id != u[i + 1].id;
  }

  /**
    Settling an accepted or rejected POST retires the draft if and only if the reply was
    an acceptance, or the draft is gone already, or the update of the rejection runs.
  */
  lemma {:induction false} SettlingRetiresIff(w: World)
    requires Invariant(w) && w.phase.Settling? && !w.phase.reply.Transient?
    ensures Dormant(Apply(w, Settle(true)), w.phase.item.id) <==>
      w.phase.reply.Accepted? || w.phase.item.id !in w.store || w.wiring.Intended?
  {
    hide WellFormed, AllAccounted, CountsMatch, NoEarlyFailures, PostsOrdered, ListsPending;
    SettledLeavesBacklog(w);
  }

  // ----- Double acceptance needs a fault -----

  function AcceptedCount(log: seq<Entry>, id: nat): nat {
    if log == [] then 0
    else
      var e := log[|log| - 1];
      AcceptedCount(log[..|log| - 1], id) + if e.Posted? && e.item.id == id && e.reply.Accepted? then 1 else 0
  }

  lemma {:induction false} AcceptedSnoc(log: seq<Entry>, e: Entry, id: nat)
    ensures AcceptedCount(log + [e], id) ==
      AcceptedCount(log, id) + if e.Posted? && e.item.id == id && e.reply.Accepted? then 1 else 0
  {
    assert (log + [e])[..|log|] == log;
  }

  predicate AwaitsRemoval(w: World, id: nat) {
    w.phase.Settling? && w.phase.item.id == id && w.phase.reply.Accepted?
  }

  ghost predicate AcceptedAtMostOnce(w: World, id: nat) {
    AcceptedCount(w.log, id) == 0 || (AcceptedCount(w.log, id) == 1 && (Dormant(w, id) || AwaitsRemoval(w, id)))
  }

  lemma {:induction false} RemovalRetires(w: World)
    requires WellFormed(w) && w.phase.Settling? && w.phase.reply.Accepted?
    ensures Dormant(Apply(w, Settle(true)), w.phase.item.id)
  {
    hide WellFormed, ListsPending;
    SettledLeavesBacklog(w);
  }

  lemma {:induction false} AwaitingStep(w: World, step: Step, id: nat)
    requires WellFormed(w) && AwaitsRemoval(w, id) && Added(w, step) != Some(Fault)
    ensures Dormant(Apply(w, step), id) || AwaitsRemoval(Apply(w, step), id)
    ensures Added(w, step).Some? ==> !Added(w, step).value.Posted?
  {
    if step == Settle(true) {
      RemovalRetires(w);
    } else {
      hide Dormant, Unsettled, ListsPending;
    }
  }

  // An accepted POST is of the draft in hand.
  lemma {:induction false} AcceptingStep(w: World, step: Step, id: nat)
    requires WellFormed(w) && Added(w, step).Some?
    requires var e := Added(w, step).value; e.Posted? && e.item.id == id && e.reply.Accepted?
    ensures AwaitsRemoval(Apply(w, step), id) && !Dormant(w, id) && !AwaitsRemoval(w, id)
  {
    hide ListsPending, HasEntry, InOrder, DistinctIds;
    assert w.phase.Posting? && step.Post?;
    assert Unsettled(w.phase)[0] == w.phase.item;
  }

  lemma {:induction false} StepKeepsAcceptedOnce(w: World, step: Step, id: nat)
    requires WellFormed(w) && AcceptedAtMostOnce(w, id) && Added(w, step) != Some(Fault)
    ensures AcceptedAtMostOnce(Apply(w, step), id)
  {
    hide Apply, Added, AcceptedCount, Dormant, AwaitsRemoval, WellFormed, HasEntry, PostCount;
    LogGrows(w, step);
    if Added(w, step).Some? {
      var e := Added(w, step).value;
      AcceptedSnoc(w.log, e, id);
      if e.Posted? && e.item.id == id && e.reply.Accepted? {
        AcceptingStep(w, step, id);
      }
    }
    if Dormant(w, id) {
      StepKeepsDormant(w, step, id);
    } else if AwaitsRemoval(w, id) {
      AwaitingStep(w, step, id);
    }
  }

  lemma {:induction false} FaultStays(w: World, steps: seq<Step>)
    requires Fault in w.log
    ensures Fault in Run(w, steps).log
    decreases |steps|
  {
    hide Apply;
    if steps != [] {
      LogGrows(w, steps[0]);
      assert HasEntry(w.log, Fault);
      assert HasEntry(Apply(w, steps[0]).log, Fault);
      FaultStays(Apply(w, steps[0]), steps[1..]);
    }
  }

  lemma {:induction false} RunKeepsAcceptedOnce(w: World, steps: seq<Step>, id: nat)
    requires WellFormed(w) && AcceptedAtMostOnce(w, id) && Fault !in Run(w, steps).log
    ensures AcceptedAtMostOnce(Run(w, steps), id)
    decreases |steps|
  {
    hide Apply, WellFormed, AcceptedAtMostOnce;
    if steps != [] {
      var w1 := Apply(w, steps[0]);
      if Added(w, steps[0]) == Some(Fault) {
        assert Fault in w1.log;
        FaultStays(w1, steps[1..]);
        assert false;
      }
      StepKeepsWellFormed(w, steps[0]);
      StepKeepsAcceptedOnce(w, steps[0], id);
      RunKeepsAcceptedOnce(w1, steps[1..], id);
    }
  }

  /** In a run without crashes and store errors, the server accepts each draft at most once. */
  lemma {:induction false} NoDoubleAcceptanceWithoutFaults(wiring: Wiring, steps: seq<Step>, id: nat)
    requires Fault !in Run(Fresh(wiring), steps).log
    ensures AcceptedCount(Run(Fresh(wiring), steps).log, id) <= 1
  {
    hide Run;
    InvariantInitially(wiring);
    RunKeepsAcceptedOnce(Fresh(wiring), steps, id);
  }

  // The drain going on, with every POST rejected, and how far it is from its end.
  function NextStep(p: Phase): Step {
    if p.Draining? then ClaimNext(true) else if p.Posting? then Post(Rejected("")) else Settle(true)
  }

  function Distance(p: Phase): nat {
    3 * |Backlog(p)| + if p.Draining? then 1 else if p.Settling? then 2 else 0
  }

  lemma {:induction false} NextStepAdvances(w: World, id: nat)
    requires Mentions(Backlog(w.phase), id)
    ensures var w' := Apply(w, NextStep(w.phase));
      || PostCount(w'.log, id) > PostCount(w.log, id)
      || (PostCount(w'.log, id) == PostCount(w.log, id) && Mentions(Backlog(w'.phase), id)
          && Distance(w'.phase) < Distance(w.phase))
  {
    hide PostCount, ListsPending, GetAndPut;
    var b := Backlog(w.phase);
    match w.phase
    case Draining(rest) =>
      assert [rest[0]] + rest[1..] == rest;
    case Posting(item, rest) =>
      PostCountSnoc(w.log, Posted(item, Rejected("")), id);
      if item.id != id {
        var i :| 0 <= i < |b| && b[i].id == id;
        assert rest[i - 1].id == id;
      }
    case Settling(item, reply, rest) =>
      PostCountSnoc(w.log, Apply(w, Settle(true)).log[|w.log|], id);
  }

  lemma {:induction false} BacklogGetsPosted(w: World, id: nat) returns (steps: seq<Step>)
    requires Mentions(Backlog(w.phase), id)
    ensures PostCount(Run(w, steps).log, id) > PostCount(w.log, id)
    decreases Distance(w.phase)
  {
    hide PostCount, Apply, Mentions, Distance, Backlog;
    var step := NextStep(w.phase);
    var w' := Apply(w, step);
    NextStepAdvances(w, id);
    var more := [];
    if PostCount(w'.log, id) == PostCount(w.log, id) {
      more := BacklogGetsPosted(w', id);
    }
    steps := [step] + more;
    assert steps[1..] == more;
  }

  /**
    Removal is final exactly when the running drain does not have the draft in its backlog:
    claimDraft ignores a missing record, so the drain can go on to post what is gone.
  */
  lemma {:induction false} RemovalIsFinalIff(w: World, id: nat)
    requires Invariant(w) && id < w.nextId && id !in w.store
    ensures (forall steps :: PostCount(Run(w, steps).log, id) == PostCount(w.log, id))
      <==> !Mentions(Backlog(w.phase), id)
  {
    hide Invariant, Run, PostCount;
    if Mentions(Backlog(w.phase), id) {
      var steps := BacklogGetsPosted(w, id);
      assert PostCount(Run(w, steps).log, id) != PostCount(w.log, id);
    } else {
      forall steps ensures PostCount(Run(w, steps).log, id) == PostCount(w.log, id) {
        DormantIsNeverPosted(w, steps, id);
      }
    }
  }

  // The user's two ways of taking a draft out of the queue.
  predicate TakesOut(step: Step, id: nat) { step == Discard(id) || step == ClearAll }

  /**
    A draft that the user discards or clears is out of the store at once, and is never posted
    again if and only if no running drain has it in its backlog.
  */
  lemma {:induction false} DiscardIsFinalIff(w: World, step: Step, id: nat)
    requires Invariant(w) && id in w.store && TakesOut(step, id)
    ensures var w1 := Apply(w, step);
      && id !in w1.store
      && (step.Discard? ==> w1.store == w.store - {id}) && (step.ClearAll? ==> w1.store == map[])
      && ((forall steps :: PostCount(Run(w1, steps).log, id) == PostCount(w.log, id)) <==>
            !Mentions(Backlog(w.phase), id))
  {
    hide Invariant, Run, PostCount, Mentions, Backlog;
    var w1 := Apply(w, step);
    InvariantBounds(w);
    StepKeepsInvariant(w, step);
    PostCountSnoc(w.log, w1.log[|w.log|], id);
    RemovalIsFinalIff(w1, id);
  }

  // ----- Store errors -----

  // Between drains, with the flag of a drain still set.
  predicate Stuck(w: World) { w.phase.Idle? && w.syncing }

  /**
    An error in releaseExpiredLocks or getQueuedDrafts, which are awaited outside the try,
    leaves the flag set: until the page is reloaded nothing is ever posted again.
  */
  lemma {:induction false} SetupErrorBlocksDrains(w: World, steps: seq<Step>, id: nat)
    requires w.phase.Starting? || w.phase.Listing?
    requires w.syncing && Crash !in steps
    ensures var w1 := Apply(w, SetupError);
      Stuck(Run(w1, steps)) && PostCount(Run(w1, steps).log, id) == PostCount(w.log, id)
  {
    hide PostCount, Run;
    var w1 := Apply(w, SetupError);
    PostCountSnoc(w.log, Fault, id);
    StuckRun(w1, steps, id);
  }

  lemma {:induction false} StuckRun(w: World, steps: seq<Step>, id: nat)
    requires Stuck(w) && Crash !in steps
    ensures Stuck(Run(w, steps)) && PostCount(Run(w, steps).log, id) == PostCount(w.log, id)
    decreases |steps|
  {
    hide PostCount, Apply, Stuck;
    if steps != [] {
      assert steps[0] in steps && forall x :: x in steps[1..] ==> x in steps;
      StuckStep(w, steps[0], id);
      StuckRun(Apply(w, steps[0]), steps[1..], id);
    }
  }

  lemma {:induction false} StuckStep(w: World, step: Step, id: nat)
    requires Stuck(w) && step != Crash
    ensures Stuck(Apply(w, step)) && PostCount(Apply(w, step).log, id) == PostCount(w.log, id)
  {
    hide PostCount, ListsPending;
    LogGrows(w, step);
    if Added(w, step).Some? {
      PostCountSnoc(w.log, Added(w, step).value, id);
    }
  }

  /**
    The other store errors. One while claiming skips that draft; one while recording a failure
    ends the drain with the drafts behind it unposted; one while removing a delivered draft
    leaves it stored, and the drain goes on to record a failure for it.
  */
  lemma {:induction false} StoreErrors(w: World)
    requires WellFormed(w)
    ensures w.phase.Draining? && w.phase.rest != [] ==>
      var w' := Apply(w, ClaimNext(false));
      !Mentions(Backlog(w'.phase), w.phase.rest[0].id) && Backlog(w'.phase) == w.phase.rest[1..] && w'.store == w.store
    ensures w.phase.Settling? && !w.phase.reply.Accepted? ==>
      var w' := Apply(w, Settle(false));
      Backlog(w'.phase) == [] && !w'.syncing && w'.store == w.store
    ensures w.phase.Settling? && w.phase.reply.Accepted? ==>
      var w' := Apply(w, Settle(false));
      && w'.store == w.store && w'.phase.Settling? && w'.phase.reply.Transient?
      && w'.phase.item == w.phase.item && w'.phase.rest == w.phase.rest
  {
    hide ListsPending, InOrder, HasEntry;
    if w.phase.Draining? && w.phase.rest != [] {
      var u := Unsettled(w.phase);
      assert u == w.phase.rest;
      assert forall i :: 0 <= i < |u[1..]| ==> u[1..][i] == u[i + 1];
    }
  }

  // ----- Results as written -----

  /** No operation ever touches a stored draft: it stays pending, unlocked, with no error and no attempts. */
  lemma {:induction false} StoredDraftsNeverChange(steps: seq<Step>, id: nat)
    requires id in Run(Fresh(AsWritten), steps).store
    ensures var d := Run(Fresh(AsWritten), steps).store[id];
      d.status == Pending && d.lockExpiresAt == None && d.lastError == None && d.attemptCount == 0
  {
    hide Run;
    InvariantInitially(AsWritten);
    RunKeepsInvariant(Fresh(AsWritten), steps);
    assert Untouched(Run(Fresh(AsWritten), steps).store[id]);
  }

  lemma {:induction false} FailureCountZero(log: seq<Entry>, id: nat)
    ensures FailureCount(log, id) == 0 <==> !HasEntry(log, FailureSettled(id))
  {
    if log != [] {
      var n := |log| - 1;
      FailureCountZero(log[..n], id);
      assert log == log[..n] + [log[n]];
    }
  }

  /** So attemptCount is the number of failed deliveries if and only if there were none. */
  lemma {:induction false} AttemptCountIsExactIff(steps: seq<Step>, id: nat)
    requires id in Run(Fresh(AsWritten), steps).store
    ensures var w := Run(Fresh(AsWritten), steps);
      w.store[id].attemptCount == FailureCount(w.log, id) <==> !HasEntry(w.log, FailureSettled(id))
  {
    hide Run;
    StoredDraftsNeverChange(steps, id);
    FailureCountZero(Run(Fresh(AsWritten), steps).log, id);
  }

  /** Every stored draft is in every listing, however often it was rejected. */
  lemma {:induction false} EveryStoredDraftIsListed(w: World, items: seq<Item>, id: nat)
    requires Invariant(w) && w.wiring.AsWritten? && id in w.store && ListsPending(w.store, items)
    ensures Mentions(items, id)
  {
    hide WellFormed, AllAccounted, NoEarlyFailures, PostsOrdered, InOrder;
    assert Untouched(w.store[id]);
    assert Item(id, w.store[id]) in items;
    var i :| 0 <= i < |items| && items[i] == Item(id, w.store[id]);
  }

  // The pending drafts with an id below the bound, in key order.
  lemma {:induction false} PendingRecords(s: Store, bound: nat) returns (records: seq<Item>)
    ensures Ascending(records)
    ensures forall i :: 0 <= i < |records| ==> records[i].id < bound
    ensures forall x :: x in records <==> x.id < bound && x.id in s && s[x.id] == x.draft && x.draft.status == Pending
  {
    records := [];
    if bound > 0 {
      var id := bound - 1;
      records := PendingRecords(s, id);
      if id in s && s[id].status == Pending {
        records := records + [Item(id, s[id])];
      }
    }
  }

  // A listing of the pending drafts always exists.
  lemma {:induction false} ListingExists(s: Store, bound: nat) returns (items: seq<Item>)
    requires forall id :: id in s ==> id < bound
    ensures ListsPending(s, items)
  {
    var records := PendingRecords(s, bound);
    items := StableSortExists(records, ByCreation());
    StableSortOrders(records, items);
    StablySortedPermutes(records, ByCreation(), items);
    SameMembers(records, items);
    hide InOrder, StablySorted, Ascending;
    assert forall i :: 0 <= i < |items| ==> items[i] in items;
    assert forall id :: id in s && s[id].status == Pending ==> Item(id, s[id]) in records;
  }

  lemma {:induction false} SameMembers<T>(a: seq<T>, b: seq<T>)
    requires multiset(a) == multiset(b)
    ensures forall x :: x in a <==> x in b
  {
    assert forall x :: x in a <==> x in multiset(a);
    assert forall x :: x in b <==> x in multiset(b);
  }

  lemma {:induction false} InvariantBounds(w: World)
    requires Invariant(w)
    ensures forall id :: id in w.store ==> id < w.nextId
  {
    hide AllAccounted, NoEarlyFailures, PostsOrdered, AllUntouched, CountsMatch;
  }

  /**
    Whatever happened to a draft before, as long as it is stored the next drain can post it
    again: a rejection retires nothing.
  */
  lemma {:induction false} NextDrainPostsAgain(w: World, id: nat) returns (steps: seq<Step>)
    requires Invariant(w) && w.wiring.AsWritten? && id in w.store && w.phase.Idle? && !w.syncing
    ensures PostCount(Run(w, steps).log, id) > PostCount(w.log, id)
  {
    hide PostCount, ListsPending, Invariant, Mentions;
    var w1 := Apply(w, StartDrain);
    var w2 := Apply(w1, ReleaseLocks);
    StepKeepsInvariant(w, StartDrain);
    StepKeepsInvariant(w1, ReleaseLocks);
    InvariantBounds(w2);
    var items := ListingExists(w2.store, w2.nextId);
    EveryStoredDraftIsListed(w2, items, id);
    var w3 := Apply(w2, List(items));
    PostCountSnoc(w2.log, Listed, id);
    var more := BacklogGetsPosted(w3, id);
    steps := [StartDrain, ReleaseLocks, List(items)] + more;
    assert steps[1..] == [ReleaseLocks, List(items)] + more;
    assert steps[1..][1..] == [List(items)] + more;
    assert steps[1..][1..][1..] == more;
    assert Run(w, steps) == Run(w1, steps[1..]) == Run(w2, steps[1..][1..]) == Run(w3, more);
  }

  /** A reload clears whatever state the tab was in: from any state a stored draft can still be posted. */
  lemma {:induction false} ReloadRecovers(w: World, id: nat) returns (steps: seq<Step>)
    requires Invariant(w) && w.wiring.AsWritten? && id in w.store
    ensures PostCount(Run(w, steps).log, id) > PostCount(w.log, id)
  {
    hide Invariant, PostCount;
    var w1 := Apply(w, Crash);
    StepKeepsInvariant(w, Crash);
    PostCountSnoc(w.log, Fault, id);
    var more := NextDrainPostsAgain(w1, id);
    steps := [Crash] + more;
    assert steps[1..] == more;
  }

  // The draft of the run below, and one drain of it that ends in a 4xx reply.
  function OnlyItem(payload: string): Item { Item(1, NewDraft(payload, 0)) }

  function RejectingDrain(payload: string): seq<Step> {
    [StartDrain, ReleaseLocks, List([OnlyItem(payload)]), ClaimNext(true), Post(Rejected("")), Settle(true), Finish]
  }

  // One draft, untouched, rejected n times so far.
  ghost predicate RejectedSoFar(w: World, payload: string, n: nat) {
    && w.wiring.AsWritten? && w.store == map[1 := NewDraft(payload, 0)]
    && !w.syncing && w.phase.Idle?
    && PostCount(w.log, 1) == n && FailureCount(w.log, 1) == n
  }

  lemma {:induction false} OnlyItemListed(payload: string)
    ensures ListsPending(map[1 := NewDraft(payload, 0)], [OnlyItem(payload)])
  {
    assert OnlyItem(payload) in [OnlyItem(payload)];
  }

  lemma {:induction false} RejectionCounts(log: seq<Entry>, item: Item, id: nat)
    requires item.id == id
    ensures var log' := log + [Listed] + [Posted(item, Rejected(""))] + [FailureSettled(id)];
      PostCount(log', id) == PostCount(log, id) + 1 && FailureCount(log', id) == FailureCount(log, id) + 1
  {
    hide PostCount, FailureCount;
    PostCountSnoc(log, Listed, id);
    PostCountSnoc(log + [Listed], Posted(item, Rejected("")), id);
    PostCountSnoc(log + [Listed] + [Posted(item, Rejected(""))], FailureSettled(id), id);
    CountSnoc(log, Listed, id);
    CountSnoc(log + [Listed], Posted(item, Rejected("")), id);
    CountSnoc(log + [Listed] + [Posted(item, Rejected(""))], FailureSettled(id), id);
  }

  lemma {:induction false} RejectingDrainRun(w: World, payload: string, n: nat)
    requires RejectedSoFar(w, payload, n)
    ensures RejectedSoFar(Run(w, RejectingDrain(payload)), payload, n + 1)
  {
    hide PostCount, FailureCount, ListsPending, Run;
    var item := OnlyItem(payload);
    var w1 := Apply(w, StartDrain);
    var w2 := Apply(w1, ReleaseLocks);
    assert w2.store == w.store;
    OnlyItemListed(payload);
    var w3 := Apply(w2, List([item]));
    assert w3.phase == Draining([item]) && w3.log == w.log + [Listed] && w3.store == w.store && w3.wiring.AsWritten?;
    OnlyDraftRejected(w3, item);
    RejectionCounts(w.log, item, 1);
    UnrollSeven(w, RejectingDrain(payload));
  }

  lemma {:induction false} OnlyDraftRejected(w: World, item: Item)
    requires w.wiring.AsWritten? && w.phase == Draining([item])
    ensures Apply(Apply(Apply(Apply(w, ClaimNext(true)), Post(Rejected(""))), Settle(true)), Finish)
      == w.(phase := Idle, syncing := false, log := w.log + [Posted(item, Rejected(""))] + [FailureSettled(item.id)])
  {
    hide ListsPending;
  }

  lemma {:induction false} UnrollSeven(w: World, s: seq<Step>)
    requires |s| == 7
    ensures Run(w, s) == Apply(Apply(Apply(Apply(Apply(Apply(Apply(w, s[0]), s[1]), s[2]), s[3]), s[4]), s[5]), s[6])
  {
    hide Apply;
    UnrollFour(w, s);
    var w4 := Apply(Apply(Apply(Apply(w, s[0]), s[1]), s[2]), s[3]);
    var w5 := Apply(w4, s[4]);
    var w6 := Apply(w5, s[5]);
    assert s[4..][1..] == s[5..] && s[5..][1..] == s[6..] && s[6..][1..] == [];
    assert Run(w4, s[4..]) == Run(w5, s[5..]) == Run(w6, s[6..]) == Apply(w6, s[6]);
  }

  lemma {:induction false} RunConcat(w: World, xs: seq<Step>, ys: seq<Step>)
    ensures Run(w, xs + ys) == Run(Run(w, xs), ys)
    decreases |xs|
  {
    hide Apply;
    if xs == [] {
      assert xs + ys == ys;
    } else {
      assert (xs + ys)[0] == xs[0] && (xs + ys)[1..] == xs[1..] + ys;
      RunConcat(Apply(w, xs[0]), xs[1..], ys);
    }
  }

  /** For every n there is a run that posts one draft n times, each time rejected, and keeps it pending. */
  lemma {:induction false} RejectedForever(payload: string, n: nat) returns (steps: seq<Step>)
    ensures RejectedSoFar(Run(Fresh(AsWritten), steps), payload, n)
  {
    if n == 0 {
      steps := [Enqueue(payload)];
      assert steps[1..] == [];
      assert Run(Fresh(AsWritten), steps) == Apply(Fresh(AsWritten), Enqueue(payload));
    } else {
      hide RejectedSoFar, Apply;
      var before := RejectedForever(payload, n - 1);
      RejectingDrainRun(Run(Fresh(AsWritten), before), payload, n - 1);
      RunConcat(Fresh(AsWritten), before, RejectingDrain(payload));
      steps := before + RejectingDrain(payload);
    }
  }

  // ----- Results of the intended variant only -----

  /** If the updates ran, attemptCount would be the number of failed deliveries. */
  lemma {:induction false} IntendedAttemptCountIsExact(steps: seq<Step>, id: nat)
    requires id in Run(Fresh(Intended), steps).store
    ensures Run(Fresh(Intended), steps).store[id].attemptCount == FailureCount(Run(Fresh(Intended), steps).log, id)
  {
    hide Run;
    InvariantInitially(Intended);
    RunKeepsInvariant(Fresh(Intended), steps);
  }

  // ----- The operations on one mutable store -----

  // The store after the first n drafts of a drain: each is claimed, posted and settled.
  function Drained(wiring: Wiring, s: Store, items: seq<Item>, reply: nat -> Reply, clock: nat -> nat, n: nat): Store
    requires n <= |items|
  {
    if n == 0 then s
    else
      var before := Drained(wiring, s, items, reply, clock, n - 1);
      var id := items[n - 1].id;
      Settled(wiring, GetAndPut(wiring, before, id, ToSyncing(clock(n - 1))), id, reply(n - 1))
  }

  function Settled(wiring: Wiring, s: Store, id: nat, reply: Reply): Store {
    match reply
    case Accepted => s - {id}
    case Rejected(message) => GetAndPut(wiring, s, id, ToFailed(message))
    case Transient(message) => GetAndPut(wiring, s, id, ToPending(message))
  }

  function AcceptedIds(items: seq<Item>, reply: nat -> Reply, n: nat): set<nat>
    requires n <= |items|
  {
    set i | 0 <= i < n && reply(i).Accepted? :: items[i].id
  }

  /** As written a drain only removes the accepted drafts. */
  lemma {:induction false} DrainOnlyRemoves(s: Store, items: seq<Item>, reply: nat -> Reply, clock: nat -> nat, n: nat)
    requires n <= |items|
    ensures Drained(AsWritten, s, items, reply, clock, n) == s - AcceptedIds(items, reply, n)
  {
    if n > 0 {
      DrainOnlyRemoves(s, items, reply, clock, n - 1);
      var more := if reply(n - 1).Accepted? then {items[n - 1].id} else {};
      assert AcceptedIds(items, reply, n) == AcceptedIds(items, reply, n - 1) + more;
    }
  }

  function Tally(reply: nat -> Reply, n: nat): (nat, nat) {
    if n == 0 then (0, 0)
    else
      var (completed, failed) := Tally(reply, n - 1);
      if reply(n - 1).Accepted? then (completed + 1, failed)
      else if reply(n - 1).Rejected? then (completed, failed + 1) else (completed, failed)
  }

  ghost function AcceptedAmong(reply: nat -> Reply, n: nat): set<nat> { set i | 0 <= i < n && reply(i).Accepted? }

  ghost function RejectedAmong(reply: nat -> Reply, n: nat): set<nat> { set i | 0 <= i < n && reply(i).Rejected? }

  lemma {:induction false} AmongNext(reply: nat -> Reply, n: nat)
    ensures AcceptedAmong(reply, n + 1) == AcceptedAmong(reply, n) + if reply(n).Accepted? then {n} else {}
    ensures RejectedAmong(reply, n + 1) == RejectedAmong(reply, n) + if reply(n).Rejected? then {n} else {}
    ensures n !in AcceptedAmong(reply, n) && n !in RejectedAmong(reply, n)
  {
  }

  /** The counters of a drain: the accepted and the rejected among its replies. */
  lemma {:induction false} TallyCounts(reply: nat -> Reply, n: nat)
    ensures Tally(reply, n) == (|AcceptedAmong(reply, n)|, |RejectedAmong(reply, n)|)
  {
    if n > 0 {
      TallyCounts(reply, n - 1);
      AmongNext(reply, n - 1);
      hide AcceptedAmong, RejectedAmong;
    }
  }

  lemma {:induction false} PendingListed(s: Store, all: seq<Item>, pending: seq<Item>)
    requires ListsAll(s, all) && InOrder(pending)
    requires forall j :: 0 <= j < |pending| ==> pending[j] in all && pending[j].draft.status == Pending
    requires forall j :: 0 <= j < |all| && all[j].draft.status == Pending ==> all[j] in pending
    ensures ListsPending(s, pending)
  {
    hide InOrder;
    forall id | id in s && s[id].status == Pending ensures Item(id, s[id]) in pending {
      assert Item(id, s[id]) in all;
      var m :| 0 <= m < |all| && all[m] == Item(id, s[id]);
    }
    forall j | 0 <= j < |pending| ensures pending[j].id in s && s[pending[j].id] == pending[j].draft {
      assert pending[j] in all;
      var m :| 0 <= m < |all| && all[m] == pending[j];
    }
  }

  class Queue {
    var store: Store
    var nextId: nat
    var syncing: bool

    ghost predicate Valid()
      reads this
    {
      nextId >= 1 && forall id :: id in store ==> 1 <= id < nextId
    }

    constructor ()
      ensures Valid() && store == map[] && nextId == 1 && !syncing
    {
      store, nextId, syncing := map[], 1, false;
    }

    method EnqueueDraft(payload: string, now: nat) returns (id: nat)
      requires Valid()
      modifies this`store, this`nextId
      ensures Valid() && id == old(nextId) && nextId == id + 1
      ensures store == old(store)[id := NewDraft(payload, now)] && id !in old(store)
      ensures store[id].payload == payload && store[id].createdAt == now && store[id].status == Pending
      ensures store[id].attemptCount == 0 && store[id].lockExpiresAt == None && store[id].lastError == None
    {
      id := nextId;
      store := store[id := NewDraft(payload, now)];
      nextId := nextId + 1;
    }

    // A get whose onsuccess would put the record back: fn sets the handler, then withStore
    // replaces it, and the event finds the second one.
    method WithStoreGet(id: nat, u: Update)
      modifies this`store
      ensures store == GetAndPut(AsWritten, old(store), id, u)
    {
      var onsuccess := PutBack(u);
      onsuccess := Resolve;
      store := OnSuccess(store, id, onsuccess);
    }

    method ClaimDraft(id: nat, now: nat)
      modifies this`store
      ensures store == GetAndPut(AsWritten, old(store), id, ToSyncing(now)) == old(store)
    {
      WithStoreGet(id, ToSyncing(now));
    }

    /** Unlocks every draft whose lock has expired and counts them. */
    method ReleaseExpiredLocks(now: nat) returns (reset: nat)
      modifies this`store
      ensures store == ReleaseExpired(old(store), now) && store.Keys == old(store).Keys
      ensures forall id :: id in store ==>
        var d := old(store)[id];
        if d.status == Syncing && d.lockExpiresAt.Some? && d.lockExpiresAt.value < now
        then store[id] == d.(status := Pending, lockExpiresAt := None) else store[id] == d
      ensures reset == |set id | id in old(store) && Unlocked(old(store)[id], now) != old(store)[id]|
    {
      ghost var before := store;
      var remaining := store.Keys;
      ghost var changed: set<nat> := {};
      reset := 0;
      while remaining != {}
        invariant remaining <= before.Keys && store.Keys == before.Keys
        invariant forall id :: id in before ==>
          store[id] == if id in remaining then before[id] else Unlocked(before[id], now)
        invariant changed == set id | id in before && id !in remaining && Unlocked(before[id], now) != before[id]
        invariant reset == |changed|
      {
        var id :| id in remaining;
        var d := store[id];
        if d.status == Syncing && d.lockExpiresAt.Some? && d.lockExpiresAt.value < now {
          store := store[id := d.(status := Pending, lockExpiresAt := None)];
          reset := reset + 1;
          changed := changed + {id};
        }
        remaining := remaining - {id};
      }
      assert changed == set id | id in before && Unlocked(before[id], now) != before[id];
      assert store == ReleaseExpired(before, now);
    }

    method MarkDraftFailed(id: nat, error: string)
      modifies this`store
      ensures store == GetAndPut(AsWritten, old(store), id, ToFailed(error)) == old(store)
    {
      WithStoreGet(id, ToFailed(error));
    }

    method RequeueDraft(id: nat, error: string)
      modifies this`store
      ensures store == GetAndPut(AsWritten, old(store), id, ToPending(error)) == old(store)
    {
      WithStoreGet(id, ToPending(error));
    }

    method RemoveDraft(id: nat)
      modifies this`store
      ensures store == old(store) - {id}
    {
      store := store - {id};
    }

    /** Every draft, oldest first: records in key order, then a stable sort on createdAt. */
    method GetQueuedDrafts() returns (items: seq<Item>)
      requires Valid()
      ensures ListsAll(store, items)
    {
      var records: seq<Item> := [];
      for id := 1 to nextId
        invariant Ascending(records)
        invariant forall i :: 0 <= i < |records| ==>
          records[i].id < id && records[i].id in store && store[records[i].id] == records[i].draft
        invariant forall k :: k in store && k < id ==> Item(k, store[k]) in records
      {
        if id in store {
          records := records + [Item(id, store[id])];
        }
      }
      items := SortBy(records, ByCreation());
      StableSortOrders(records, items);
      SameMembers(records, items);
      assert forall i :: 0 <= i < |items| ==> items[i] in items;
    }

    method PendingOf(all: seq<Item>) returns (pending: seq<Item>)
      requires ListsAll(store, all)
      ensures ListsPending(store, pending)
    {
      pending := [];
      for i := 0 to |all|
        invariant InOrder(pending)
        invariant forall j :: 0 <= j < |pending| ==> pending[j] in all[..i] && pending[j].draft.status == Pending
        invariant forall j :: 0 <= j < i && all[j].draft.status == Pending ==> all[j] in pending
      {
        if all[i].draft.status == Pending {
          forall j | 0 <= j < |pending| ensures Before(pending[j], all[i]) {
            assert pending[j] in all[..i];
            var m :| 0 <= m < |all[..i]| && all[..i][m] == pending[j];
            assert all[m] == pending[j];
          }
          pending := pending + [all[i]];
        }
      }
      assert all[..|all|] == all;
      PendingListed(store, all, pending);
    }

    /** drainQueue without interruption: reply(i) answers the i-th POST, claimed at clock(i). */
    method DrainQueue(now: nat, reply: nat -> Reply, clock: nat -> nat)
        returns (pending: seq<Item>, completed: nat, failed: nat)
      requires Valid()
      modifies this`store, this`syncing
      ensures old(syncing) ==> store == old(store) && syncing && pending == [] && completed == failed == 0
      ensures !old(syncing) ==>
        && !syncing
        && ListsPending(ReleaseExpired(old(store), now), pending)
        && store == Drained(AsWritten, ReleaseExpired(old(store), now), pending, reply, clock, |pending|)
        && store == ReleaseExpired(old(store), now) - AcceptedIds(pending, reply, |pending|)
        && completed == |AcceptedAmong(reply, |pending|)| && failed == |RejectedAmong(reply, |pending|)|
    {
      pending, completed, failed := [], 0, 0;
      if syncing {
        return;
      }
      hide ListsPending, ListsAll, Drained, Tally, ReleaseExpired, AcceptedIds;
      syncing := true;
      ReleaseKeepsIds(store, now);
      var _ := ReleaseExpiredLocks(now);
      ghost var start := store;
      var all := GetQueuedDrafts();
      pending := PendingOf(all);
      completed, failed := DrainLoop(pending, reply, clock);
      DrainOnlyRemoves(start, pending, reply, clock, |pending|);
      TallyCounts(reply, |pending|);
      syncing := false;
    }

    method DrainLoop(pending: seq<Item>, reply: nat -> Reply, clock: nat -> nat) returns (completed: nat, failed: nat)
      modifies this`store
      ensures store == Drained(AsWritten, old(store), pending, reply, clock, |pending|)
      ensures (completed, failed) == Tally(reply, |pending|)
    {
      hide GetAndPut, Settled;
      completed, failed := 0, 0;
      for i := 0 to |pending|
        invariant store == Drained(AsWritten, old(store), pending, reply, clock, i)
        invariant (completed, failed) == Tally(reply, i)
      {
        ClaimDraft(pending[i].id, clock(i));
        SettleDraft(pending[i].id, reply(i));
        if reply(i).Accepted? {
          completed := completed + 1;
        } else if reply(i).Rejected? {
          failed := failed + 1;
        }
      }
    }

    method SettleDraft(id: nat, reply: Reply)
      modifies this`store
      ensures store == Settled(AsWritten, old(store), id, reply)
    {
      match reply
      case Accepted => RemoveDraft(id);
      case Rejected(message) => MarkDraftFailed(id, message);
      case Transient(message) => RequeueDraft(id, message);
    }
  }

  lemma {:induction false} ReleaseKeepsIds(s: Store, now: nat)
    ensures ReleaseExpired(s, now).Keys == s.Keys
  {
  }

  // The steps of an uninterrupted drain after listing, from the n-th draft on; draft i is
  // claimed at clock(i).
  function DrainSteps(reply: nat -> Reply, clock: nat -> nat, now: nat, n: nat, total: nat): seq<Step>
    requires n <= total
    decreases total - n
  {
    if n == total then [Finish]
    else
      var wait := if clock(n) > now then clock(n) - now else 0;
      [Tick(wait), ClaimNext(true), Post(reply(n)), Settle(true)] + DrainSteps(reply, clock, now + wait, n + 1, total)
  }

  lemma {:induction false} OneDraft(w: World, wait: nat, reply: Reply)
    requires w.phase.Draining? && w.phase.rest != []
    ensures var id := w.phase.rest[0].id;
      var w' := Apply(Apply(Apply(Apply(w, Tick(wait)), ClaimNext(true)), Post(reply)), Settle(true));
      && w'.store == Settled(w.wiring, GetAndPut(w.wiring, w.store, id, ToSyncing(w.now + wait)), id, reply)
      && w'.phase == Draining(w.phase.rest[1..]) && w'.now == w.now + wait
      && w'.syncing == w.syncing && w'.wiring == w.wiring
  {
    hide GetAndPut;
  }

  ghost predicate ClockFrom(clock: nat -> nat, now: nat, n: nat) {
    (forall i :: i >= n ==> now <= clock(i)) && (forall i, j :: n <= i <= j ==> clock(i) <= clock(j))
  }

  /**
    The uninterrupted drain is a run of the state machine with the same effect on the store,
    for either wiring and every clock that does not run backwards.
  */
  lemma {:induction false} DrainStepsRun(w: World, s: Store, items: seq<Item>, reply: nat -> Reply,
                                         clock: nat -> nat, n: nat)
    requires n <= |items| && w.phase == Draining(items[n..]) && ClockFrom(clock, w.now, n)
    requires w.store == Drained(w.wiring, s, items, reply, clock, n)
    ensures var w' := Run(w, DrainSteps(reply, clock, w.now, n, |items|));
      && w'.phase == Idle && !w'.syncing
      && w'.store == Drained(w.wiring, s, items, reply, clock, |items|)
    decreases |items| - n
  {
    hide Settled, GetAndPut, Apply, Run, DrainSteps, ClockFrom, Drained;
    var steps := DrainSteps(reply, clock, w.now, n, |items|);
    if n == |items| {
      FinishRun(w);
      DrainStepsEnd(reply, clock, w.now, n);
    } else {
      ClockAdvances(clock, w.now, n);
      var wait := clock(n) - w.now;
      OneDraft(w, wait, reply(n));
      var w' := Apply(Apply(Apply(Apply(w, Tick(wait)), ClaimNext(true)), Post(reply(n))), Settle(true));
      assert items[n..][0] == items[n] && items[n..][1..] == items[n + 1..];
      DrainedNext(w.wiring, s, items, reply, clock, n);
      DrainStepsRun(w', s, items, reply, clock, n + 1);
      var more := DrainSteps(reply, clock, w'.now, n + 1, |items|);
      DrainStepsHead(reply, clock, w.now, n, |items|);
      UnrollFour(w, steps);
    }
  }

  lemma {:induction false} DrainedNext(wiring: Wiring, s: Store, items: seq<Item>, reply: nat -> Reply,
                                       clock: nat -> nat, n: nat)
    requires n < |items|
    ensures var id := items[n].id;
      var claimed := GetAndPut(wiring, Drained(wiring, s, items, reply, clock, n), id, ToSyncing(clock(n)));
      Drained(wiring, s, items, reply, clock, n + 1) == Settled(wiring, claimed, id, reply(n))
  {
  }

  lemma {:induction false} ClockAdvances(clock: nat -> nat, now: nat, n: nat)
    requires ClockFrom(clock, now, n)
    ensures now <= clock(n) && ClockFrom(clock, clock(n), n + 1)
  {
  }

  lemma {:induction false} DrainStepsEnd(reply: nat -> Reply, clock: nat -> nat, now: nat, n: nat)
    ensures DrainSteps(reply, clock, now, n, n) == [Finish]
  {
  }

  lemma {:induction false} DrainStepsHead(reply: nat -> Reply, clock: nat -> nat, now: nat, n: nat, total: nat)
    requires n < total && now <= clock(n)
    ensures var s := DrainSteps(reply, clock, now, n, total);
      && |s| >= 4 && s[0] == Tick(clock(n) - now) && s[1] == ClaimNext(true)
      && s[2] == Post(reply(n)) && s[3] == Settle(true)
      && s[4..] == DrainSteps(reply, clock, clock(n), n + 1, total)
  {
  }

  lemma {:induction false} FinishRun(w: World)
    requires w.phase == Draining([])
    ensures Run(w, [Finish]) == w.(phase := Idle, syncing := false)
  {
    hide ListsPending;
    assert [Finish][1..] == [];
  }

  lemma {:induction false} UnrollFour(w: World, s: seq<Step>)
    requires |s| >= 4
    ensures Run(w, s) == Run(Apply(Apply(Apply(Apply(w, s[0]), s[1]), s[2]), s[3]), s[4..])
  {
    hide Apply;
    var w1 := Apply(w, s[0]);
    var w2 := Apply(w1, s[1]);
    var w3 := Apply(w2, s[2]);
    assert s[1..][1..] == s[2..] && s[2..][1..] == s[3..] && s[3..][1..] == s[4..];
    assert Run(w, s) == Run(w1, s[1..]) == Run(w2, s[2..]) == Run(w3, s[3..]);
  }
}
