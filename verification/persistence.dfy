/** Persistence of the store in `chat_storage.c`: the `uuid|username|message|timestamp`
    entry codec, the storage keys, the save loop and the start-up load loop.
    Non-volatile storage is an abstract key-value map; whether each storage
    operation succeeds is an input. */
module Persistence {
  import opened CStr
  import opened ChatTypes
  import opened RingBuffer

  /** Prefix of the per-message keys. */
  const KEY_PREFIX: string := "msg_"
  /** Key of the stored message count. */
  const COUNT_KEY: string := "msg_count"
  /** Size of the buffer an entry is formatted into. */
  const ENCODE_BUFFER: nat := MAX_UUID_LENGTH + MAX_USERNAME_LENGTH + MAX_MESSAGE_LENGTH + 32
  /** The field separator of the simple entry format. */
  const SEP: char := '|'

  /** A stored value: an `i32` (the count) or a string (an entry). */
  datatype NvsValue = I32(n: int) | Str(s: string)

  type Nvs = map<string, NvsValue>

  /** `"%s%d"` of the prefix and the index. */
  function EntryKey(i: nat): (k: string)
    ensures |k| == |KEY_PREFIX| + |Decimal(i)| && k[..|KEY_PREFIX|] == KEY_PREFIX
  {
    KEY_PREFIX + Decimal(i)
  }

  /** Distinct indices get distinct keys, and no entry key is the count key. */
  lemma EntryKeysDistinct(i: nat, j: nat)
    ensures EntryKey(i) == EntryKey(j) <==> i == j
    ensures EntryKey(i) != COUNT_KEY
  {
    if EntryKey(i) == EntryKey(j) {
      assert Decimal(i) == EntryKey(i)[|KEY_PREFIX|..];
      assert Decimal(j) == EntryKey(j)[|KEY_PREFIX|..];
      DecimalInjective(i, j);
    }
    assert EntryKey(i)[4] == Decimal(i)[0];
    assert COUNT_KEY[4] == 'c';
  }

  // ---------------------------------------------------------------- codec

  /** Two pieces with a separator between them. */
  function Joined(a: string, b: string): string {
    a + [SEP] + b
  }

  /** Split at the first separator (`strchr` and a terminator written over it). */
  function SplitAt(s: string): (r: Option<(string, string)>)
    ensures r.None? <==> SEP !in s
    ensures r.Some? ==> s == Joined(r.value.0, r.value.1) && SEP !in r.value.0
  {
    match IndexOf(s, SEP)
    case None => None
    case Some(k) =>
      assert s == s[..k] + [SEP] + s[k + 1..];
      Some((s[..k], s[k + 1..]))
  }

  /** Splitting finds the separator that was joined in, when the first piece has none. */
  lemma SplitAtJoined(a: string, b: string)
    requires SEP !in a
    ensures SplitAt(Joined(a, b)) == Some((a, b))
  {
    IndexOfSeparator(a, SEP, b);
    var s := Joined(a, b);
    assert s[..|a|] == a;
    assert s[|a| + 1..] == b;
  }

  /** The simple format before truncation: the three fields and the decimal timestamp, separated. */
  function EncodeFull(m: Message): string {
    Joined(m.uuid, Joined(m.username, Joined(m.text, Decimal(m.timestamp))))
  }

  /** `snprintf(msg_buf, sizeof msg_buf, "%s|%s|%s|%lu", ...)`: cut to the buffer if longer.
      A message whose fields fit their buffers is never cut. */
  function Encode(m: Message): (s: string)
    ensures |s| < ENCODE_BUFFER
    ensures s <= EncodeFull(m)
    ensures FitsBuffers(m) ==> s == EncodeFull(m)
  {
    Uint32DecimalLength(m.timestamp);
    Strlcpy(EncodeFull(m), ENCODE_BUFFER)
  }

  /** The four pieces of an entry, split at its first three separators. */
  datatype Fields = Fields(uuid: string, username: string, text: string, rest: string)

  function SplitFields(s: string): (r: Option<Fields>)
    ensures r.Some? ==> s == Joined(r.value.uuid, Joined(r.value.username, Joined(r.value.text, r.value.rest)))
    ensures r.Some? ==> SEP !in r.value.uuid && SEP !in r.value.username && SEP !in r.value.text
  {
    match SplitAt(s)
    case None => None
    case Some((u, s1)) =>
      match SplitAt(s1)
      case None => None
      case Some((n, s2)) =>
        match SplitAt(s2)
        case None => None
        case Some((t, rest)) => Some(Fields(u, n, t, rest))
  }

  /** Three separator-free fields and any remainder split back apart. */
  lemma SplitFieldsJoined(u: string, n: string, t: string, rest: string)
    requires SEP !in u && SEP !in n && SEP !in t
    ensures SplitFields(Joined(u, Joined(n, Joined(t, rest)))) == Some(Fields(u, n, t, rest))
  {
    SplitAtJoined(u, Joined(n, Joined(t, rest)));
    SplitAtJoined(n, Joined(t, rest));
    SplitAtJoined(t, rest);
  }

  /** The fields a legacy JSON entry carries; `timestamp` is cJSON's `valueint`. */
  datatype RawMessage = RawMessage(uuid: string, username: string, text: string, timestamp: int)

  /** The legacy JSON decoder (cJSON), which this model leaves opaque. */
  type LegacyDecoder = string -> Option<RawMessage>

  /** Copy decoded fields into a slot: `strlcpy` each string, `(uint32_t)` the timestamp. */
  function FromRaw(raw: RawMessage): (m: Message)
    ensures FitsBuffers(m)
  {
    StoreFields(raw.uuid, raw.username, raw.text, ToUint32(raw.timestamp))
  }

  /** What the JSON fallback parses: the simple-format attempt has already
      overwritten the first separator with a terminator. */
  function LegacyInput(s: string): (t: string)
    ensures t <= s && SEP !in t
    ensures SEP !in s ==> t == s
  {
    match SplitAt(s)
    case None => s
    case Some((a, _)) => a
  }

  /** `load_message_from_nvs` after the read: the simple format when the entry has
      three separators, with `atoi` of everything after the third; otherwise the
      JSON fallback. */
  function Decode(s: string, legacy: LegacyDecoder): (r: Option<Message>)
    ensures r.Some? ==> FitsBuffers(r.value)
    ensures SplitFields(s).Some? ==> r.Some?
    ensures SplitFields(s).None? ==> (r.Some? <==> legacy(LegacyInput(s)).Some?)
  {
    match SplitFields(s)
    case Some(f) => Some(FromRaw(RawMessage(f.uuid, f.username, f.text, Atoi(f.rest))))
    case None =>
      match legacy(LegacyInput(s))
      case Some(raw) => Some(FromRaw(raw))
      case None => None
  }

  /** No field contains the separator. */
  predicate SeparatorFree(m: Message) {
    SEP !in m.uuid && SEP !in m.username && SEP !in m.text
  }

  /** The entry codec round-trips a stored message whose fields have no separator
      and whose timestamp fits an `int`, whatever the legacy decoder does. */
  lemma DecodeEncode(m: Message, legacy: LegacyDecoder)
    requires FitsBuffers(m) && SeparatorFree(m) && m.timestamp <= INT32_MAX
    ensures Decode(Encode(m), legacy) == Some(m)
  {
    SplitFieldsJoined(m.uuid, m.username, m.text, Decimal(m.timestamp));
    AtoiDecimal(m.timestamp);
  }

  /** A separator inside the message text breaks the round trip: the text is cut
      at it, and the timestamp is `atoi` of the rest of the text followed by the
      real timestamp. */
  lemma SeparatorInTextCutsText(u: string, n: string, a: string, b: string, ts: uint32, legacy: LegacyDecoder)
    requires SEP !in u && SEP !in n && SEP !in a
    requires FitsBuffers(Message(u, n, Joined(a, b), ts))
    ensures Decode(Encode(Message(u, n, Joined(a, b), ts)), legacy)
            == Some(Message(u, n, a, ToUint32(Atoi(Joined(b, Decimal(ts))))))
  {
    var d := Decimal(ts);
    assert Joined(Joined(a, b), d) == Joined(a, Joined(b, d));
    SplitFieldsJoined(u, n, a, Joined(b, d));
  }

  /** `atoi` of a string that starts with neither white space, a sign nor a digit is 0. */
  lemma AtoiNoDigits(s: string)
    requires |s| > 0 && !IsSpace(s[0]) && !IsDigit(s[0]) && s[0] != '-' && s[0] != '+'
    ensures Atoi(s) == 0
  {
    assert SkipSpace(s) == s;
    assert LeadingDigits(s) == [];
  }

  /** So when the text after the separator starts with a letter, the message comes back
      with its text cut and timestamp 0. */
  lemma SeparatorInTextZeroesTimestamp(u: string, n: string, a: string, b: string, ts: uint32, legacy: LegacyDecoder)
    requires SEP !in u && SEP !in n && SEP !in a
    requires FitsBuffers(Message(u, n, Joined(a, b), ts))
    requires |b| > 0 && 'a' <= b[0] <= 'z'
    ensures Decode(Encode(Message(u, n, Joined(a, b), ts)), legacy) == Some(Message(u, n, a, 0))
  {
    SeparatorInTextCutsText(u, n, a, b, ts, legacy);
    AtoiNoDigits(Joined(b, Decimal(ts)));
  }

  // ---------------------------------------------------------------- save

  /** Whether each storage operation of a save succeeds. An entry index beyond
      `entryWriteOk` writes successfully. */
  datatype SaveFaults = SaveFaults(openOk: bool, countWriteOk: bool, entryWriteOk: seq<bool>, commitOk: bool)

  predicate EntryWriteOk(f: SaveFaults, i: nat) {
    i >= |f.entryWriteOk| || f.entryWriteOk[i]
  }

  /** How `save_chat_history` ends; `NothingToSave` and `Saved` are `ESP_OK`. */
  datatype SaveStatus =
    | NothingToSave
    | Saved
    | OpenFailed
    | CountWriteFailed
    | EntryWriteFailed(index: nat)
    | CommitFailed

  /** The storage holds `snap` in logical order: the count, then entry `i` for each message. */
  predicate HoldsHistory(kv: Nvs, snap: seq<Message>) {
    && COUNT_KEY in kv && kv[COUNT_KEY] == I32(|snap|)
    && forall i :: 0 <= i < |snap| ==> EntryKey(i) in kv && kv[EntryKey(i)] == Str(Encode(snap[i]))
  }

  /** `k` is the key of one of the first `n` entries. */
  predicate WrittenKey(k: string, n: nat) {
    exists j :: 0 <= j < n && k == EntryKey(j)
  }

  /** The storage after writing entries `0 .. n-1` of `snap` over `kv`, in order. */
  function Overlay(kv: Nvs, snap: seq<Message>, n: nat): Nvs
    requires n <= |snap|
  {
    if n == 0 then kv else Overlay(kv, snap, n - 1)[EntryKey(n - 1) := Str(Encode(snap[n - 1]))]
  }

  /** After the writes, each written entry holds its encoded message. */
  lemma {:induction false} OverlayHoldsEntries(kv: Nvs, snap: seq<Message>, n: nat)
    requires n <= |snap|
    ensures forall j :: 0 <= j < n ==>
              EntryKey(j) in Overlay(kv, snap, n) && Overlay(kv, snap, n)[EntryKey(j)] == Str(Encode(snap[j]))
  {
    if n > 0 {
      OverlayHoldsEntries(kv, snap, n - 1);
      forall j | 0 <= j < n - 1
        ensures EntryKey(j) != EntryKey(n - 1)
      {
        EntryKeysDistinct(j, n - 1);
      }
    }
  }

  /** The writes touch only the keys of the entries written. */
  lemma {:induction false} OverlayFrame(kv: Nvs, snap: seq<Message>, n: nat)
    requires n <= |snap|
    ensures forall k :: k in kv && !WrittenKey(k, n) ==> k in Overlay(kv, snap, n) && Overlay(kv, snap, n)[k] == kv[k]
    ensures forall k :: k in Overlay(kv, snap, n) ==> k in kv || WrittenKey(k, n)
  {
    if n > 0 {
      OverlayFrame(kv, snap, n - 1);
      assert WrittenKey(EntryKey(n - 1), n);
      forall k | WrittenKey(k, n - 1)
        ensures WrittenKey(k, n)
      {
        var j :| 0 <= j < n - 1 && k == EntryKey(j);
        assert 0 <= j < n && k == EntryKey(j);
      }
    }
  }

  /** The count key is never an entry key. */
  lemma CountKeyNotWritten(n: nat)
    ensures !WrittenKey(COUNT_KEY, n)
  {
    forall j | 0 <= j < n
      ensures COUNT_KEY != EntryKey(j)
    {
      EntryKeysDistinct(j, j);
    }
  }

  /** How many entries a save wrote before it stopped. */
  function Written(status: SaveStatus, count: nat): nat {
    match status
    case EntryWriteFailed(i) => i
    case Saved => count
    case CommitFailed => count
    case _ => 0
  }

  /** `save_chat_history`. An empty store writes nothing. Otherwise the count is
      written, then each message in logical order; the first failed write stops the
      save without a commit. The keys a save touches are the count key and the
      entries it wrote; everything else in the storage is left as it was. */
  method SaveHistory(r: Ring, kv: Nvs, f: SaveFaults) returns (status: SaveStatus, kv': Nvs)
    requires Valid(r)
    ensures r.count == 0 ==> status == NothingToSave && kv' == kv
    ensures r.count > 0 && !f.openOk ==> status == OpenFailed && kv' == kv
    ensures r.count > 0 && f.openOk && !f.countWriteOk ==> status == CountWriteFailed && kv' == kv
    ensures status.EntryWriteFailed? ==>
              && status.index < r.count && !EntryWriteOk(f, status.index)
              && forall j :: 0 <= j < status.index ==> EntryWriteOk(f, j)
    ensures status == Saved <==>
              && r.count > 0 && f.openOk && f.countWriteOk && f.commitOk
              && forall j :: 0 <= j < r.count ==> EntryWriteOk(f, j)
    ensures status == NothingToSave <==> r.count == 0
    ensures status == OpenFailed <==> r.count > 0 && !f.openOk
    ensures status == CountWriteFailed <==> r.count > 0 && f.openOk && !f.countWriteOk
    ensures status.EntryWriteFailed? <==>
              && r.count > 0 && f.openOk && f.countWriteOk
              && exists j :: 0 <= j < r.count && !EntryWriteOk(f, j)
    ensures status == CommitFailed <==>
              && r.count > 0 && f.openOk && f.countWriteOk && !f.commitOk
              && forall j :: 0 <= j < r.count ==> EntryWriteOk(f, j)
    ensures status == Saved || status == CommitFailed ==> HoldsHistory(kv', Snapshot(r))
    ensures status.EntryWriteFailed? ==>
              && COUNT_KEY in kv' && kv'[COUNT_KEY] == I32(r.count)
              && forall j :: 0 <= j < status.index ==>
                   EntryKey(j) in kv' && kv'[EntryKey(j)] == Str(Encode(Snapshot(r)[j]))
    ensures forall k :: k in kv && k != COUNT_KEY && !WrittenKey(k, Written(status, r.count)) ==>
              k in kv' && kv'[k] == kv[k]
    ensures forall k :: k in kv' ==> k in kv || k == COUNT_KEY || WrittenKey(k, Written(status, r.count))
  {
    var snap := CopyOut(r);
    if |snap| == 0 {
      return NothingToSave, kv;
    }
    if !f.openOk {
      return OpenFailed, kv;
    }
    if !f.countWriteOk {
      return CountWriteFailed, kv;
    }
    var base := kv[COUNT_KEY := I32(|snap|)];
    var i;
    i, kv' := WriteEntries(base, snap, f);
    if i == |snap| {
      status := if f.commitOk then Saved else CommitFailed;
    } else {
      status := EntryWriteFailed(i);
    }
    assert Written(status, r.count) == i;
    OverlayHoldsEntries(base, snap, i);
    OverlayFrame(base, snap, i);
    CountKeyNotWritten(i);
  }

  /** The entry loop of `save_chat_history`: write entries in order and stop at
      the first failed write, returning how many were written. */
  method WriteEntries(base: Nvs, snap: seq<Message>, f: SaveFaults) returns (i: nat, kv': Nvs)
    ensures i <= |snap| && kv' == Overlay(base, snap, i)
    ensures forall j :: 0 <= j < i ==> EntryWriteOk(f, j)
    ensures i < |snap| ==> !EntryWriteOk(f, i)
  {
    kv' := base;
    i := 0;
    while i < |snap|
      invariant 0 <= i <= |snap|
      invariant forall j :: 0 <= j < i ==> EntryWriteOk(f, j)
      invariant kv' == Overlay(base, snap, i)
    {
      if !EntryWriteOk(f, i) {
        return;
      }
      kv' := kv'[EntryKey(i) := Str(Encode(snap[i]))];
      i := i + 1;
    }
  }

  // ---------------------------------------------------------------- load

  /** `nvs_get_i32` of the count key. */
  function StoredCount(kv: Nvs): Option<int> {
    if COUNT_KEY in kv && kv[COUNT_KEY].I32? then Some(kv[COUNT_KEY].n) else None
  }

  /** `load_message_from_nvs(i)`: read entry `i` as a string and decode it. */
  function ReadEntry(kv: Nvs, legacy: LegacyDecoder, i: nat): (r: Option<Message>)
    ensures r.Some? ==> FitsBuffers(r.value)
  {
    if EntryKey(i) in kv && kv[EntryKey(i)].Str? then Decode(kv[EntryKey(i)].s, legacy) else None
  }

  /** Every decoded entry fits the slot buffers. */
  predicate EntriesFit(es: seq<Option<Message>>) {
    forall i :: 0 <= i < |es| ==> es[i].Some? ==> FitsBuffers(es[i].value)
  }

  /** The outcome of reading entries `0 .. limit-1`. */
  function ReadEntries(kv: Nvs, legacy: LegacyDecoder, limit: nat): (es: seq<Option<Message>>)
    ensures |es| == limit && EntriesFit(es)
    ensures forall j :: 0 <= j < limit ==> es[j] == ReadEntry(kv, legacy, j)
  {
    seq(limit, j requires 0 <= j => ReadEntry(kv, legacy, j))
  }

  /** How many of the entries from `i` on decoded. */
  function Loadable(es: seq<Option<Message>>, i: nat): (n: nat)
    ensures n <= if i <= |es| then |es| - i else 0
    decreases |es| - i
  {
    if i >= |es| then 0 else (if es[i].Some? then 1 else 0) + Loadable(es, i + 1)
  }

  /** The decoded entries from `i` on, in index order. */
  function Decoded(es: seq<Option<Message>>, i: nat): (ms: seq<Message>)
    requires EntriesFit(es)
    ensures |ms| == Loadable(es, i) && AllFit(ms)
    decreases |es| - i
  {
    if i >= |es| then []
    else (if es[i].Some? then [es[i].value] else []) + Decoded(es, i + 1)
  }

  /** The number of entries the load loop visits: the stored count, capped at the capacity. */
  function LoadLimit(n: int): nat {
    if n <= 0 then 0 else if n < MAX_MESSAGES then n else MAX_MESSAGES
  }

  /** The load loop of `chat_storage_init` from index `i` on: entry `i` goes to
      slot `i` when it decodes, and a slot whose entry fails keeps its old content.
      Returns the slots and the number of successful loads. */
  function LoadLoop(slots: seq<Message>, loaded: nat, es: seq<Option<Message>>, i: nat)
    : (res: (seq<Message>, nat))
    requires |slots| == MAX_MESSAGES && AllFit(slots) && EntriesFit(es) && i <= |es| <= MAX_MESSAGES
    ensures |res.0| == MAX_MESSAGES && AllFit(res.0)
    ensures res.1 == loaded + Loadable(es, i)
    ensures forall j :: 0 <= j < MAX_MESSAGES ==>
              res.0[j] == if i <= j < |es| && es[j].Some? then es[j].value else slots[j]
    decreases |es| - i
  {
    if i == |es| then (slots, loaded)
    else if es[i].Some? then LoadLoop(slots[i := es[i].value], loaded + 1, es, i + 1)
    else LoadLoop(slots, loaded, es, i + 1)
  }

  /** The stored count the load honours: present and positive. */
  predicate HasHistory(kv: Nvs, openOk: bool) {
    openOk && StoredCount(kv).Some? && StoredCount(kv).value > 0
  }

  /** The load of `chat_storage_init`, as written. When the storage opens and holds a
      positive count, entries `0 .. min(count, 100)-1` are read into their own slots;
      `count` becomes the number that decoded and `next_index` that number modulo the
      capacity. A failed entry leaves its slot as it was: the slots are not compacted. */
  function LoadHistory(r: Ring, kv: Nvs, openOk: bool, legacy: LegacyDecoder): (r': Ring)
    requires Valid(r)
    ensures Valid(r')
    ensures !HasHistory(kv, openOk) ==> r' == r
    ensures HasHistory(kv, openOk) ==>
              var es := ReadEntries(kv, legacy, LoadLimit(StoredCount(kv).value));
              && r'.count == Loadable(es, 0)
              && r'.next == r'.count % MAX_MESSAGES
              && forall j :: 0 <= j < MAX_MESSAGES ==>
                   r'.slots[j] == if j < |es| && es[j].Some? then es[j].value else r.slots[j]
  {
    if !HasHistory(kv, openOk) then r
    else
      var es := ReadEntries(kv, legacy, LoadLimit(StoredCount(kv).value));
      var res := LoadLoop(r.slots, 0, es, 0);
      Ring(res.0, res.1, res.1 % MAX_MESSAGES)
  }

  lemma {:induction false} AllLoadable(es: seq<Option<Message>>, i: nat)
    requires i <= |es|
    requires forall j :: i <= j < |es| ==> es[j].Some?
    ensures Loadable(es, i) == |es| - i
    decreases |es| - i
  {
    if i < |es| {
      AllLoadable(es, i + 1);
    }
  }

  /** The entries of a saved history read back as its messages. */
  lemma ReadSavedEntries(kv: Nvs, snap: seq<Message>, legacy: LegacyDecoder)
    requires HoldsHistory(kv, snap) && AllFit(snap)
    requires forall i :: 0 <= i < |snap| ==> SeparatorFree(snap[i]) && snap[i].timestamp <= INT32_MAX
    ensures forall i :: 0 <= i < |snap| ==> ReadEntry(kv, legacy, i) == Some(snap[i])
  {
    forall i | 0 <= i < |snap|
      ensures ReadEntry(kv, legacy, i) == Some(snap[i])
    {
      DecodeEncode(snap[i], legacy);
    }
  }

  /** When every visited entry decodes, the load shows them in index order. */
  lemma LoadAllPresent(before: Ring, kv: Nvs, legacy: LegacyDecoder, ms: seq<Message>)
    requires Valid(before) && HasHistory(kv, true)
    requires |ms| == LoadLimit(StoredCount(kv).value)
    requires forall j :: 0 <= j < |ms| ==> ReadEntry(kv, legacy, j) == Some(ms[j])
    ensures Snapshot(LoadHistory(before, kv, true, legacy)) == ms
  {
    var n := |ms|;
    var es := ReadEntries(kv, legacy, n);
    assert forall j :: 0 <= j < n ==> es[j] == Some(ms[j]);
    AllLoadable(es, 0);
    var r' := LoadHistory(before, kv, true, legacy);
    assert r'.count == n;
    SnapshotUnwrapped(r');
    forall j | 0 <= j < n
      ensures r'.slots[..n][j] == ms[j]
    {
      assert r'.slots[j] == es[j].value;
    }
  }

  /** What a successful save leaves behind loads back as the same history, oldest
      first, whatever the ring held before the load, when no field holds the
      separator and every timestamp fits an `int`; outside that domain the entry
      codec loses data (`SeparatorInTextCutsText`). */
  lemma SaveLoadRoundTrip(r: Ring, kv: Nvs, before: Ring, legacy: LegacyDecoder)
    requires Valid(r) && Valid(before) && r.count > 0
    requires HoldsHistory(kv, Snapshot(r))
    requires forall i :: 0 <= i < r.count ==> SeparatorFree(Snapshot(r)[i]) && Snapshot(r)[i].timestamp <= INT32_MAX
    ensures Snapshot(LoadHistory(before, kv, true, legacy)) == Snapshot(r)
  {
    var snap := Snapshot(r);
    ValidSnapshotFits(r);
    ReadSavedEntries(kv, snap, legacy);
    LoadAllPresent(before, kv, legacy, snap);
  }

  /** A storage whose count says two, whose entry 0 does not decode and whose
      entry 1 does. */
  predicate HoleAtZero(kv: Nvs, legacy: LegacyDecoder) {
    StoredCount(kv) == Some(2) && ReadEntry(kv, legacy, 0).None? && ReadEntry(kv, legacy, 1).Some?
  }

  /** On such a storage the as-written load counts one message but shows slot 0,
      which the failed entry left as it was, and keeps entry 1's message out of view. */
  lemma LoadLeavesHole(r: Ring, kv: Nvs, legacy: LegacyDecoder)
    requires Valid(r) && HoleAtZero(kv, legacy)
    ensures LoadHistory(r, kv, true, legacy).count == 1
    ensures Snapshot(LoadHistory(r, kv, true, legacy)) == [r.slots[0]]
  {
    var es := ReadEntries(kv, legacy, 2);
    assert Loadable(es, 2) == 0;
    assert Loadable(es, 1) == 1;
    var r' := LoadHistory(r, kv, true, legacy);
    SnapshotUnwrapped(r');
  }

  /** A storage with the hole: the count says two, entry 0 is missing and entry 1
      holds `m`. */
  function HoleStorage(m: Message): Nvs {
    map[COUNT_KEY := I32(2), EntryKey(1) := Str(Encode(m))]
  }

  lemma HoleStorageHasHole(m: Message, legacy: LegacyDecoder)
    requires FitsBuffers(m) && SeparatorFree(m) && m.timestamp <= INT32_MAX
    ensures HoleAtZero(HoleStorage(m), legacy)
    ensures ReadEntry(HoleStorage(m), legacy, 1) == Some(m)
  {
    var kv := HoleStorage(m);
    EntryKeysDistinct(0, 1);
    EntryKeysDistinct(1, 1);
    assert StoredCount(kv) == Some(2);
    assert EntryKey(0) !in kv;
    assert kv[EntryKey(1)] == Str(Encode(m));
    DecodeEncode(m, legacy);
  }

  /** Loaded into the empty store, such a storage shows a zeroed message instead of `m`. */
  lemma HoleStorageLoad(m: Message, legacy: LegacyDecoder)
    requires FitsBuffers(m) && SeparatorFree(m) && m.timestamp <= INT32_MAX
    ensures Snapshot(LoadHistory(Empty(), HoleStorage(m), true, legacy)) == [EmptyMessage]
  {
    HoleStorageHasHole(m, legacy);
    LoadLeavesHole(Empty(), HoleStorage(m), legacy);
  }

  /** The load loop with the holes closed: each decoded entry goes to the next free slot. */
  function CompactingLoadLoop(slots: seq<Message>, loaded: nat, es: seq<Option<Message>>, i: nat)
    : (res: (seq<Message>, nat))
    requires |slots| == MAX_MESSAGES && AllFit(slots) && EntriesFit(es)
    requires loaded <= i <= |es| <= MAX_MESSAGES
    ensures |res.0| == MAX_MESSAGES && AllFit(res.0)
    ensures res.1 == loaded + Loadable(es, i) && res.1 <= |es|
    ensures res.0[..res.1] == slots[..loaded] + Decoded(es, i)
    decreases |es| - i
  {
    if i == |es| then (slots, loaded)
    else if es[i].Some? then
      var m := es[i].value;
      var res := CompactingLoadLoop(slots[loaded := m], loaded + 1, es, i + 1);
      PlaceNext(slots, loaded, m, Decoded(es, i + 1));
      res
    else CompactingLoadLoop(slots, loaded, es, i + 1)
  }

  lemma PlaceNext(slots: seq<Message>, loaded: nat, m: Message, rest: seq<Message>)
    requires loaded < |slots|
    ensures slots[loaded := m][..loaded + 1] + rest == slots[..loaded] + ([m] + rest)
  {
    assert slots[loaded := m][..loaded + 1] == slots[..loaded] + [m];
  }

  /** The load with failed entries skipped rather than left as holes: the history it
      rebuilds is exactly the decoded entries, in stored order. */
  function LoadHistoryCompacting(r: Ring, kv: Nvs, openOk: bool, legacy: LegacyDecoder): (r': Ring)
    requires Valid(r)
    ensures Valid(r')
    ensures !HasHistory(kv, openOk) ==> r' == r
    ensures HasHistory(kv, openOk) ==>
              Snapshot(r') == Decoded(ReadEntries(kv, legacy, LoadLimit(StoredCount(kv).value)), 0)
  {
    if !HasHistory(kv, openOk) then r
    else
      var es := ReadEntries(kv, legacy, LoadLimit(StoredCount(kv).value));
      var res := CompactingLoadLoop(r.slots, 0, es, 0);
      var r' := Ring(res.0, res.1, res.1 % MAX_MESSAGES);
      SnapshotUnwrapped(r');
      assert r.slots[..0] + Decoded(es, 0) == Decoded(es, 0);
      r'
  }

  /** On a storage with the hole, the compacting load keeps entry 1's message. */
  lemma CompactingLoadFillsHole(r: Ring, kv: Nvs, legacy: LegacyDecoder)
    requires Valid(r) && HoleAtZero(kv, legacy)
    ensures Snapshot(LoadHistoryCompacting(r, kv, true, legacy)) == [ReadEntry(kv, legacy, 1).value]
  {
    var es := ReadEntries(kv, legacy, 2);
    assert Decoded(es, 2) == [];
    assert Decoded(es, 1) == [es[1].value];
  }

  /** Loaded into the empty store, the compacting load shows `m`. */
  lemma HoleStorageCompactingLoad(m: Message, legacy: LegacyDecoder)
    requires FitsBuffers(m) && SeparatorFree(m) && m.timestamp <= INT32_MAX
    ensures Snapshot(LoadHistoryCompacting(Empty(), HoleStorage(m), true, legacy)) == [m]
  {
    HoleStorageHasHole(m, legacy);
    CompactingLoadFillsHole(Empty(), HoleStorage(m), legacy);
  }

  /** The compacting load also reads back a successful save, on the same domain. */
  lemma SaveLoadCompactingRoundTrip(r: Ring, kv: Nvs, before: Ring, legacy: LegacyDecoder)
    requires Valid(r) && Valid(before) && r.count > 0
    requires HoldsHistory(kv, Snapshot(r))
    requires forall i :: 0 <= i < r.count ==> SeparatorFree(Snapshot(r)[i]) && Snapshot(r)[i].timestamp <= INT32_MAX
    ensures Snapshot(LoadHistoryCompacting(before, kv, true, legacy)) == Snapshot(r)
  {
    var snap := Snapshot(r);
    ValidSnapshotFits(r);
    ReadSavedEntries(kv, snap, legacy);
    var es := ReadEntries(kv, legacy, LoadLimit(r.count));
    AllDecoded(es, snap, 0);
  }

  lemma {:induction false} AllDecoded(es: seq<Option<Message>>, ms: seq<Message>, i: nat)
    requires EntriesFit(es) && |es| == |ms| && i <= |es|
    requires forall j :: i <= j < |es| ==> es[j] == Some(ms[j])
    ensures Decoded(es, i) == ms[i..]
    decreases |es| - i
  {
    if i < |es| {
      AllDecoded(es, ms, i + 1);
      assert ms[i..] == [ms[i]] + ms[i + 1..];
    }
  }
}
