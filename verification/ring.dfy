/** The fixed-capacity message ring shared by both store variants
    (`chat_storage_t`): 100 slots, the number of messages held and the slot
    the next insert overwrites. */
module RingBuffer {
  import opened CStr
  import opened ChatTypes

  datatype Ring = Ring(slots: seq<Message>, count: int, next: int)

  /** The layout invariant every operation keeps. Below capacity the ring has
      never wrapped, so the write cursor equals the count. */
  predicate Valid(r: Ring) {
    && |r.slots| == MAX_MESSAGES
    && 0 <= r.count <= MAX_MESSAGES
    && 0 <= r.next < MAX_MESSAGES
    && (r.count < MAX_MESSAGES ==> r.next == r.count)
    && forall i :: 0 <= i < |r.slots| ==> FitsBuffers(r.slots[i])
  }

  predicate AllFit(ms: seq<Message>) {
    forall i :: 0 <= i < |ms| ==> FitsBuffers(ms[i])
  }

  /** The static initialiser: zeroed slots, `count = 0`, `next_index = 0`. */
  function Empty(): (r: Ring)
    ensures Valid(r) && r.count == 0
  {
    Ring(seq(MAX_MESSAGES, _ => EmptyMessage), 0, 0)
  }

  /** The held messages, oldest first: once the ring is full the oldest
      message sits at the write cursor and the order wraps around. */
  function Snapshot(r: Ring): (s: seq<Message>)
    requires Valid(r)
    ensures |s| == r.count
  {
    if r.count == MAX_MESSAGES then r.slots[r.next..] + r.slots[..r.next] else r.slots[..r.count]
  }

  /** Every held message fits the slot buffers. */
  lemma ValidSnapshotFits(r: Ring)
    requires Valid(r)
    ensures AllFit(Snapshot(r))
  {
  }

  /** A ring whose cursor sits at `count` modulo the capacity (one filled from
      slot 0 without wrapping) shows its first `count` slots. */
  lemma SnapshotUnwrapped(r: Ring)
    requires Valid(r) && r.next == r.count % MAX_MESSAGES
    ensures Snapshot(r) == r.slots[..r.count]
  {
    if r.count == MAX_MESSAGES {
      assert r.slots[0..] + r.slots[..0] == r.slots[..MAX_MESSAGES];
    }
  }

  /** Where the copy-out loop starts: `next_index` when full, otherwise slot 0. */
  function Start(r: Ring): nat
    requires Valid(r)
  {
    if r.count == MAX_MESSAGES then r.next else 0
  }

  /** The copy-out loop every reader runs under the lock: slot
      `(start + i) % MAX_MESSAGES` for each `i < count`. It yields exactly the
      held messages, oldest first. */
  method CopyOut(r: Ring) returns (out: seq<Message>)
    requires Valid(r)
    ensures out == Snapshot(r)
  {
    var start := Start(r);
    out := [];
    var i := 0;
    while i < r.count
      invariant 0 <= i <= r.count
      invariant |out| == i
      invariant forall j :: 0 <= j < i ==> out[j] == r.slots[(start + j) % MAX_MESSAGES]
    {
      out := out + [r.slots[(start + i) % MAX_MESSAGES]];
      i := i + 1;
    }
    CopyOutIsSnapshot(r, out);
  }

  lemma CopyOutIsSnapshot(r: Ring, s: seq<Message>)
    requires Valid(r)
    requires |s| == r.count
    requires forall i :: 0 <= i < r.count ==> s[i] == r.slots[(Start(r) + i) % MAX_MESSAGES]
    ensures s == Snapshot(r)
  {
    var c := Snapshot(r);
    forall i | 0 <= i < |s|
      ensures s[i] == c[i]
    {
      if r.count == MAX_MESSAGES {
        if r.next + i < MAX_MESSAGES {
          assert c[i] == r.slots[r.next + i];
        } else {
          assert c[i] == r.slots[r.next + i - MAX_MESSAGES];
        }
      }
    }
  }

  /** `chat_storage_add_message`'s ring update: write the slot at the old
      cursor, advance the cursor modulo the capacity, and count up only while
      below capacity. No other slot changes. */
  function Push(r: Ring, m: Message): (r': Ring)
    requires Valid(r) && FitsBuffers(m)
    ensures Valid(r')
    ensures r'.slots[r.next] == m
    ensures forall i :: 0 <= i < MAX_MESSAGES && i != r.next ==> r'.slots[i] == r.slots[i]
    ensures r'.next == (r.next + 1) % MAX_MESSAGES
    ensures r'.count == if r.count < MAX_MESSAGES then r.count + 1 else MAX_MESSAGES
  {
    Ring(r.slots[r.next := m], if r.count < MAX_MESSAGES then r.count + 1 else r.count,
         (r.next + 1) % MAX_MESSAGES)
  }

  /** The last `n` elements of `s` (all of them when there are fewer). */
  function LastN<T>(s: seq<T>, n: nat): (r: seq<T>)
    ensures |r| == if |s| <= n then |s| else n
  {
    if |s| <= n then s else s[|s| - n..]
  }

  /** One insert appends to the oldest-first view and, at capacity, evicts the oldest message. */
  lemma PushSnapshot(r: Ring, m: Message)
    requires Valid(r) && FitsBuffers(m)
    ensures Snapshot(Push(r, m)) == LastN(Snapshot(r) + [m], MAX_MESSAGES)
  {
    if r.count < MAX_MESSAGES {
      PushBelowCapacity(r, m);
    } else {
      PushAtCapacity(r, m);
    }
  }

  lemma PushBelowCapacity(r: Ring, m: Message)
    requires Valid(r) && FitsBuffers(m) && r.count < MAX_MESSAGES
    ensures Snapshot(Push(r, m)) == r.slots[..r.count] + [m]
  {
    var r' := Push(r, m);
    var c := r.count;
    assert r'.slots[..c + 1] == r.slots[..c] + [m] by {
      forall i | 0 <= i < c + 1
        ensures r'.slots[..c + 1][i] == (r.slots[..c] + [m])[i]
      {
      }
    }
    if c + 1 == MAX_MESSAGES {
      assert r'.next == 0;
      assert r'.slots[0..] + r'.slots[..0] == r'.slots[..c + 1];
    } else {
      assert r'.count == c + 1;
    }
  }

  lemma PushAtCapacity(r: Ring, m: Message)
    requires Valid(r) && FitsBuffers(m) && r.count == MAX_MESSAGES
    ensures Snapshot(Push(r, m)) == (Snapshot(r) + [m])[1..]
  {
    var r' := Push(r, m);
    var n := r.next;
    if n + 1 < MAX_MESSAGES {
      assert r'.next == n + 1;
      assert r'.slots[n + 1..] == r.slots[n + 1..];
      assert r'.slots[..n + 1] == r.slots[..n] + [m];
      assert (r.slots[n..] + r.slots[..n] + [m])[1..] == r.slots[n + 1..] + r.slots[..n] + [m];
    } else {
      assert r'.next == 0;
      assert r'.slots[0..] + r'.slots[..0] == r.slots[..n] + [m];
      assert (r.slots[n..] + r.slots[..n] + [m])[1..] == r.slots[..n] + [m];
    }
  }

  /** A run of inserts, first to last. */
  function PushAll(r: Ring, ms: seq<Message>): (r': Ring)
    requires Valid(r) && AllFit(ms)
    ensures Valid(r')
    decreases |ms|
  {
    if |ms| == 0 then r else Push(PushAll(r, ms[..|ms| - 1]), ms[|ms| - 1])
  }

  lemma LastNAppend<T>(s: seq<T>, x: T, n: nat)
    requires n >= 1
    ensures LastN(LastN(s, n) + [x], n) == LastN(s + [x], n)
  {
    if |s| > n {
      assert (s[|s| - n..] + [x])[1..] == (s + [x])[|s| + 1 - n..];
    }
  }

  /** After any run of inserts the ring shows the last `MAX_MESSAGES` of
      (what it held before, then the inserted messages), in insertion order. */
  lemma {:induction false} PushAllSnapshot(r: Ring, ms: seq<Message>)
    requires Valid(r) && AllFit(ms)
    ensures Snapshot(PushAll(r, ms)) == LastN(Snapshot(r) + ms, MAX_MESSAGES)
    decreases |ms|
  {
    if |ms| > 0 {
      var init := ms[..|ms| - 1];
      var m := ms[|ms| - 1];
      var r1 := PushAll(r, init);
      PushAllSnapshot(r, init);
      PushSnapshot(r1, m);
      LastNStep(Snapshot(r), init, m, ms, Snapshot(r1), Snapshot(Push(r1, m)), MAX_MESSAGES);
    } else {
      assert Snapshot(r) + ms == Snapshot(r);
    }
  }

  lemma LastNStep<T>(s0: seq<T>, init: seq<T>, m: T, ms: seq<T>, x: seq<T>, y: seq<T>, n: nat)
    requires n >= 1 && ms == init + [m]
    requires x == LastN(s0 + init, n) && y == LastN(x + [m], n)
    ensures y == LastN(s0 + ms, n)
  {
    LastNAppend(s0 + init, m, n);
    assert s0 + init + [m] == s0 + ms;
  }

  /** From the empty ring, `k` inserts leave the last `min(k, 100)` messages in
      insertion order, `count == min(k, 100)` and `next_index == k % 100`. */
  lemma PushAllFromEmpty(ms: seq<Message>)
    requires AllFit(ms)
    ensures Snapshot(PushAll(Empty(), ms)) == LastN(ms, MAX_MESSAGES)
    ensures PushAll(Empty(), ms).count == if |ms| < MAX_MESSAGES then |ms| else MAX_MESSAGES
    ensures PushAll(Empty(), ms).next == |ms| % MAX_MESSAGES
  {
    var e := Empty();
    assert |Snapshot(e)| == 0;
    PushAllSnapshot(e, ms);
    assert Snapshot(e) + ms == ms;
    PushAllCursor(ms);
  }

  lemma {:induction false} PushAllCursor(ms: seq<Message>)
    requires AllFit(ms)
    ensures PushAll(Empty(), ms).count == if |ms| < MAX_MESSAGES then |ms| else MAX_MESSAGES
    ensures PushAll(Empty(), ms).next == |ms| % MAX_MESSAGES
    decreases |ms|
  {
    if |ms| > 0 {
      var init := ms[..|ms| - 1];
      PushAllCursor(init);
      var r1 := PushAll(Empty(), init);
      assert PushAll(Empty(), ms) == Push(r1, ms[|ms| - 1]);
      CursorStep(|init|);
    }
  }

  lemma CursorStep(k: nat)
    ensures (k % MAX_MESSAGES + 1) % MAX_MESSAGES == (k + 1) % MAX_MESSAGES
  {
    var q := k / MAX_MESSAGES;
    assert k == q * MAX_MESSAGES + k % MAX_MESSAGES;
    if k % MAX_MESSAGES + 1 == MAX_MESSAGES {
      assert k + 1 == (q + 1) * MAX_MESSAGES;
    } else {
      assert k + 1 == q * MAX_MESSAGES + (k % MAX_MESSAGES + 1);
    }
  }
}
