/** The message store of `chat_storage.c`: the ring, the cache of the rendered
    history and the counter of inserts not yet saved. Rendering to JSON is
    modelled as the ordered sequence of message records it renders. */
module ChatStorage {
  import opened CStr
  import opened ChatTypes
  import opened RingBuffer

  /** `cache_valid`, `cached_full_messages_json` (NULL or a rendering) and
      `cached_full_messages_timestamp`. */
  datatype Cache = Cache(valid: bool, text: Option<seq<Message>>, stamp: uint32)

  /** The store's state: the ring, the cache and `new_messages_count`. */
  datatype Store = Store(ring: Ring, cache: Cache, pending: int)

  /** Between calls the ring is well formed and the batch counter is below the save threshold. */
  predicate Valid(st: Store) {
    RingBuffer.Valid(st.ring) && 0 <= st.pending < MIN_MESSAGES_TO_SAVE
  }

  /** A valid cached rendering is the rendering of what the ring holds now. */
  predicate CacheCoherent(st: Store)
    requires RingBuffer.Valid(st.ring)
  {
    st.cache.valid && st.cache.text.Some? ==> st.cache.text.value == Snapshot(st.ring)
  }

  /** The static initial state: empty ring, no cache, no pending inserts. */
  function Initial(): (st: Store)
    ensures Valid(st) && CacheCoherent(st)
    ensures Snapshot(st.ring) == []
  {
    var e := Empty();
    assert |Snapshot(e)| == 0;
    Store(e, Cache(false, None, 0), 0)
  }

  /** `invalidate_cache`: drop the cached rendering; the stamp is left as it was. */
  function Invalidate(c: Cache): (c': Cache)
    ensures !c'.valid && c'.text.None?
  {
    Cache(false, None, c.stamp)
  }

  datatype Status = Ok | InvalidArg

  /** The outcome of an insert, and whether it started a save of the history. */
  datatype AddResult = AddResult(status: Status, store: Store, saveRequested: bool)

  /** `chat_storage_add_message`. A NULL argument is rejected with nothing changed.
      Otherwise the message, stamped with the current time, is appended to the
      oldest-first history (evicting the oldest at capacity), the cache is
      dropped, and every fifth accumulated insert resets the counter and starts a save. */
  function AddMessage(st: Store, uuid: Option<string>, username: Option<string>,
                      text: Option<string>, now: uint32): (r: AddResult)
    requires Valid(st)
    ensures Valid(r.store)
    ensures r.status == InvalidArg <==> uuid.None? || username.None? || text.None?
    ensures r.status == InvalidArg ==> r.store == st && !r.saveRequested
    ensures r.status == Ok ==>
              Snapshot(r.store.ring)
              == LastN(Snapshot(st.ring) + [StoreFields(uuid.value, username.value, text.value, now)], MAX_MESSAGES)
    ensures r.status == Ok ==> !r.store.cache.valid && r.store.cache.text.None?
    ensures r.status == Ok ==> (r.saveRequested <==> st.pending + 1 == MIN_MESSAGES_TO_SAVE)
    ensures r.status == Ok ==> r.store.pending == (st.pending + 1) % MIN_MESSAGES_TO_SAVE
    ensures CacheCoherent(st) ==> CacheCoherent(r.store)
  {
    if uuid.None? || username.None? || text.None? then AddResult(InvalidArg, st, false)
    else
      var m := StoreFields(uuid.value, username.value, text.value, now);
      var ring := Push(st.ring, m);
      PushSnapshot(st.ring, m);
      assert Snapshot(ring) == LastN(Snapshot(st.ring) + [m], MAX_MESSAGES);
      var pending := st.pending + 1;
      var save := pending >= MIN_MESSAGES_TO_SAVE;
      AddResult(Ok, Store(ring, Invalidate(st.cache), if save then 0 else pending), save)
  }

  /** `current_time - cached_full_messages_timestamp` in `uint32_t` arithmetic. */
  function Elapsed(now: uint32, stamp: uint32): uint32 {
    ToUint32(now - stamp)
  }

  /** The cache may be served: valid, present, and rendered less than 30 seconds ago. */
  predicate CacheFresh(c: Cache, now: uint32) {
    c.valid && c.text.Some? && Elapsed(now, c.stamp) < CACHE_VALID_TIME
  }

  datatype Rendered = Rendered(messages: seq<Message>, store: Store, fromCache: bool)

  /** `chat_storage_get_messages_json`. A fresh cache is served as is; otherwise
      the history is copied out oldest first and becomes the new cache, stamped
      with the current time. Because every insert drops the cache, the reply
      is always the current history. */
  function GetMessagesJson(st: Store, now: uint32): (r: Rendered)
    requires Valid(st)
    ensures r.fromCache <==> CacheFresh(st.cache, now)
    ensures r.fromCache ==> r.store == st
    ensures !r.fromCache ==> r.store == st.(cache := Cache(true, Some(Snapshot(st.ring)), now))
    ensures CacheCoherent(st) ==> r.messages == Snapshot(st.ring) && |r.messages| == st.ring.count
    ensures Valid(r.store) && (CacheCoherent(st) ==> CacheCoherent(r.store))
  {
    if CacheFresh(st.cache, now) then Rendered(st.cache.text.value, st, true)
    else
      var s := Snapshot(st.ring);
      Rendered(s, st.(cache := Cache(true, Some(s), now)), false)
  }

  /** A clock that stepped back makes the unsigned difference huge, so the cache is rebuilt. */
  lemma ClockRollbackRebuilds(c: Cache, now: uint32)
    requires now < c.stamp && c.stamp - now <= 0x1_0000_0000 - CACHE_VALID_TIME
    ensures !CacheFresh(c, now)
  {
    assert Elapsed(now, c.stamp) == 0x1_0000_0000 + now - c.stamp;
  }

  /** The messages strictly newer than `since`, in their original order. */
  function KeepNewer(ms: seq<Message>, since: int): (r: seq<Message>)
    ensures |r| <= |ms|
    ensures forall i :: 0 <= i < |r| ==> r[i].timestamp > since
    ensures forall m :: m in r <==> m in ms && m.timestamp > since
  {
    if |ms| == 0 then []
    else (if ms[0].timestamp > since then [ms[0]] else []) + KeepNewer(ms[1..], since)
  }

  /** Filtering commutes with concatenation: relative order is kept. */
  lemma {:induction false} KeepNewerConcat(a: seq<Message>, b: seq<Message>, since: int)
    ensures KeepNewer(a + b, since) == KeepNewer(a, since) + KeepNewer(b, since)
  {
    if |a| > 0 {
      assert (a + b)[1..] == a[1..] + b;
      KeepNewerConcat(a[1..], b, since);
    } else {
      assert a + b == b;
    }
  }

  predicate NonDecreasing(ms: seq<Message>) {
    forall i, j :: 0 <= i < j < |ms| ==> ms[i].timestamp <= ms[j].timestamp
  }

  /** When timestamps never decrease along the history (a clock that does not step
      back), the newer messages are exactly a suffix of it. */
  lemma {:induction false} KeepNewerSortedIsSuffix(ms: seq<Message>, since: int)
    requires NonDecreasing(ms)
    ensures KeepNewer(ms, since) == ms[|ms| - |KeepNewer(ms, since)|..]
  {
    if |ms| > 0 {
      KeepNewerSortedIsSuffix(ms[1..], since);
      if ms[0].timestamp > since {
        forall i | 0 <= i < |ms| - 1
          ensures ms[1..][i].timestamp > since
        {
          assert ms[0].timestamp <= ms[i + 1].timestamp;
        }
        KeepAllNewer(ms[1..], since);
      }
    }
  }

  lemma {:induction false} KeepAllNewer(ms: seq<Message>, since: int)
    requires forall i :: 0 <= i < |ms| ==> ms[i].timestamp > since
    ensures KeepNewer(ms, since) == ms
  {
    if |ms| > 0 {
      KeepAllNewer(ms[1..], since);
    }
  }

  /** A client that polls again with the newest timestamp it has seen is never sent those messages again. */
  lemma NoRedelivery(seen: seq<Message>, ms: seq<Message>, cursor: int)
    requires forall i :: 0 <= i < |seen| ==> seen[i].timestamp <= cursor
    ensures forall m :: m in KeepNewer(ms, cursor) ==> m !in seen
  {
  }

  const BUSY_ERROR: string := "Server busy, try again later"

  /** The since-query reply: the `messages` array, `has_new_messages` and an optional `error`. */
  datatype SinceReply = SinceReply(messages: seq<Message>, hasNew: bool, error: Option<string>)

  /** `chat_storage_get_messages_since_json`. When the lock is not obtained within
      its timeout the reply is an empty list, no news and a busy error. Otherwise it
      lists exactly the held messages strictly newer than `since`, oldest first, and
      reports news exactly when that list is not empty. */
  function GetMessagesSince(st: Store, since: uint32, lockTaken: bool): (r: SinceReply)
    requires Valid(st)
    ensures !lockTaken ==> r == SinceReply([], false, Some(BUSY_ERROR))
    ensures lockTaken ==> r.error.None? && r.messages == KeepNewer(Snapshot(st.ring), since)
    ensures lockTaken ==> forall m :: m in r.messages <==> m in Snapshot(st.ring) && m.timestamp > since
    ensures lockTaken ==> (r.hasNew <==> exists i :: 0 <= i < st.ring.count && Snapshot(st.ring)[i].timestamp > since)
  {
    if !lockTaken then SinceReply([], false, Some(BUSY_ERROR))
    else
      var found := KeepNewer(Snapshot(st.ring), since);
      assert |found| > 0 ==> found[0] in found;
      SinceReply(found, |found| > 0, None)
  }

  datatype DeinitResult = DeinitResult(store: Store, flushRequested: bool)

  /** `chat_storage_deinit`: pending inserts are flushed by a synchronous save, the
      counter is zeroed and the cache dropped; the ring is kept. */
  function Deinit(st: Store): (r: DeinitResult)
    requires Valid(st)
    ensures r.flushRequested <==> st.pending > 0
    ensures r.store.ring == st.ring && r.store.pending == 0
    ensures !r.store.cache.valid && r.store.cache.text.None?
    ensures Valid(r.store) && CacheCoherent(r.store)
  {
    DeinitResult(Store(st.ring, Invalidate(st.cache), 0), st.pending > 0)
  }

  /** A message as posted: all three arguments non-NULL, plus the clock reading at insert time. */
  datatype Post = Post(uuid: string, username: string, text: string, now: uint32)

  function Stored(p: Post): (m: Message)
    ensures FitsBuffers(m)
  {
    StoreFields(p.uuid, p.username, p.text, p.now)
  }

  function StoredAll(ps: seq<Post>): (ms: seq<Message>)
    ensures |ms| == |ps| && AllFit(ms)
    ensures forall i :: 0 <= i < |ps| ==> ms[i] == Stored(ps[i])
  {
    seq(|ps|, i requires 0 <= i < |ps| => Stored(ps[i]))
  }

  lemma StoredAllSnoc(ps: seq<Post>)
    requires |ps| > 0
    ensures StoredAll(ps) == StoredAll(ps[..|ps| - 1]) + [Stored(ps[|ps| - 1])]
  {
  }

  datatype Batch = Batch(store: Store, saves: nat)

  /** A run of successful inserts, first to last, counting the saves they start. */
  function AddMany(st: Store, ps: seq<Post>): (b: Batch)
    requires Valid(st)
    ensures Valid(b.store)
    decreases |ps|
  {
    if |ps| == 0 then Batch(st, 0)
    else
      var b := AddMany(st, ps[..|ps| - 1]);
      var p := ps[|ps| - 1];
      var r := AddMessage(b.store, Some(p.uuid), Some(p.username), Some(p.text), p.now);
      Batch(r.store, b.saves + if r.saveRequested then 1 else 0)
  }

  /** Batching loses no insert from the accounting: every insert is either covered by
      a started save or still counted as pending (which `Deinit` flushes). */
  lemma {:induction false} BatchAccounting(st: Store, ps: seq<Post>)
    requires Valid(st)
    ensures AddMany(st, ps).saves * MIN_MESSAGES_TO_SAVE + AddMany(st, ps).store.pending
            == st.pending + |ps|
    decreases |ps|
  {
    if |ps| > 0 {
      BatchAccounting(st, ps[..|ps| - 1]);
    }
  }

  /** After a run of inserts the history is the last 100 of what it held before
      followed by the posted messages, in posting order. */
  lemma {:induction false} AddManySnapshot(st: Store, ps: seq<Post>)
    requires Valid(st)
    ensures Snapshot(AddMany(st, ps).store.ring) == LastN(Snapshot(st.ring) + StoredAll(ps), MAX_MESSAGES)
    decreases |ps|
  {
    if |ps| > 0 {
      var init := ps[..|ps| - 1];
      var p := ps[|ps| - 1];
      var b := AddMany(st, init);
      AddManySnapshot(st, init);
      var r := AddMessage(b.store, Some(p.uuid), Some(p.username), Some(p.text), p.now);
      assert AddMany(st, ps).store == r.store;
      StoredAllSnoc(ps);
      LastNStep(Snapshot(st.ring), StoredAll(init), Stored(p), StoredAll(ps),
                Snapshot(b.store.ring), Snapshot(r.store.ring), MAX_MESSAGES);
    } else {
      assert Snapshot(st.ring) + StoredAll(ps) == Snapshot(st.ring);
    }
  }

  /** One call on the store, with the inputs the environment supplies. */
  datatype Op =
    | AddOp(uuid: Option<string>, username: Option<string>, text: Option<string>, now: uint32)
    | RenderOp(now: uint32)
    | SinceOp(since: uint32, lockTaken: bool)
    | DeinitOp

  function Step(st: Store, op: Op): (st': Store)
    requires Valid(st)
    ensures Valid(st')
    ensures CacheCoherent(st) ==> CacheCoherent(st')
  {
    match op
    case AddOp(u, n, t, now) => AddMessage(st, u, n, t, now).store
    case RenderOp(now) => GetMessagesJson(st, now).store
    case SinceOp(_, _) => st
    case DeinitOp => Deinit(st).store
  }

  /** A run of operations. Operations may follow `DeinitOp`, although the source
      deletes the lock there and later calls would fail: allowing them only adds
      runs, so the invariants proved over every run still hold for the real ones. */
  function Run(st: Store, ops: seq<Op>): (st': Store)
    requires Valid(st)
    ensures Valid(st')
    decreases |ops|
  {
    if |ops| == 0 then st else Run(Step(st, ops[0]), ops[1..])
  }

  /** In every state reachable from start-up, the cache agrees with the ring, the batch
      counter stays in 0..4, and a render returns exactly the current oldest-first history. */
  lemma {:induction false} ReachableStoresServeCurrentHistory(ops: seq<Op>, now: uint32)
    ensures Valid(Run(Initial(), ops)) && CacheCoherent(Run(Initial(), ops))
    ensures GetMessagesJson(Run(Initial(), ops), now).messages == Snapshot(Run(Initial(), ops).ring)
  {
    RunKeepsCoherence(Initial(), ops);
  }

  lemma {:induction false} RunKeepsCoherence(st: Store, ops: seq<Op>)
    requires Valid(st) && CacheCoherent(st)
    ensures CacheCoherent(Run(st, ops))
    decreases |ops|
  {
    if |ops| > 0 {
      RunKeepsCoherence(Step(st, ops[0]), ops[1..]);
    }
  }
}
