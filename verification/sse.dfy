/** The server-sent-events side of `chat_server.c`: the registry of connected
    clients (a singly linked list, head first) and the frame a broadcast sends,
    together with a reader of the text/event-stream format (WHATWG HTML Living
    Standard, section 9.2) that says what a browser makes of a frame. */
module Sse {
  import opened CStr

  /** `SSE_RETRY_TIMEOUT`, in milliseconds. */
  const SSE_RETRY_TIMEOUT: nat := 3000

  /** A registered connection: server handle and socket. */
  datatype Client = Client(hd: int, fd: int)

  /** The client list, head first. */
  type Registry = seq<Client>

  /** `add_sse_client`: prepend the connection when the node allocation succeeds.
      There is no duplicate check and no bound on the length. */
  function AddClient(reg: Registry, c: Client, allocOk: bool): (r: Registry)
    ensures allocOk ==> |r| == |reg| + 1 && r[0] == c && r[1..] == reg
    ensures !allocOk ==> r == reg
  {
    if allocOk then [c] + reg else reg
  }

  /** The position of the first node matching both handle and socket. */
  function FirstIndex(reg: Registry, c: Client): (r: Option<nat>)
    ensures r.None? <==> c !in reg
    ensures r.Some? ==> r.value < |reg| && reg[r.value] == c && c !in reg[..r.value]
  {
    if |reg| == 0 then None
    else if reg[0] == c then Some(0)
    else
      match FirstIndex(reg[1..], c)
      case None => None
      case Some(k) =>
        assert reg[..k + 1] == [reg[0]] + reg[1..][..k];
        Some(k + 1)
  }

  /** `remove_sse_client`: walk the list and unlink the first matching node only. */
  function RemoveClient(reg: Registry, c: Client): (r: Registry)
    ensures |r| == if c in reg then |reg| - 1 else |reg|
  {
    if |reg| == 0 then []
    else if reg[0] == c then reg[1..]
    else
      assert c in reg <==> c in reg[1..] by { assert reg == [reg[0]] + reg[1..]; }
      [reg[0]] + RemoveClient(reg[1..], c)
  }

  /** Removal unlinks the node at the first match and keeps the rest in order; with
      no match the registry is unchanged. */
  lemma {:induction false} RemoveClientSpec(reg: Registry, c: Client)
    ensures match FirstIndex(reg, c)
            case None => RemoveClient(reg, c) == reg
            case Some(k) => RemoveClient(reg, c) == reg[..k] + reg[k + 1..]
  {
    if |reg| > 0 && reg[0] != c {
      var rest := reg[1..];
      RemoveClientSpec(rest, c);
      assert reg == [reg[0]] + rest;
      match FirstIndex(rest, c)
      case None =>
      case Some(k) =>
        assert FirstIndex(reg, c) == Some(k + 1);
        assert reg[..k + 1] == [reg[0]] + rest[..k];
        assert reg[k + 2..] == rest[k + 1..];
    }
  }

  /** Removal takes out exactly one copy of the client when there is one. */
  lemma RemoveClientMultiset(reg: Registry, c: Client)
    ensures multiset(RemoveClient(reg, c)) == multiset(reg) - multiset{c}
  {
    RemoveClientSpec(reg, c);
    match FirstIndex(reg, c)
    case None =>
      assert multiset(reg)[c] == 0;
    case Some(k) =>
      var a, b := reg[..k], reg[k + 1..];
      assert reg == a + [c] + b;
      MultisetSplit(a, c, b);
  }

  lemma MultisetSplit(a: Registry, c: Client, b: Registry)
    ensures multiset(a + [c] + b) - multiset{c} == multiset(a + b)
  {
    assert multiset(a + [c] + b) == multiset(a) + multiset{c} + multiset(b);
    assert multiset(a + b) == multiset(a) + multiset(b);
  }

  /** Registering and then removing a connection restores the registry. */
  lemma RemoveAfterAdd(reg: Registry, c: Client)
    ensures RemoveClient(AddClient(reg, c, true), c) == reg
  {
  }

  /** Removing a connection registered at most once twice is removing it once. */
  lemma RemoveTwice(reg: Registry, c: Client)
    requires multiset(reg)[c] <= 1
    ensures c !in RemoveClient(reg, c)
    ensures RemoveClient(RemoveClient(reg, c), c) == RemoveClient(reg, c)
  {
    RemoveClientMultiset(reg, c);
    assert multiset(RemoveClient(reg, c))[c] == 0;
    RemoveClientSpec(RemoveClient(reg, c), c);
  }

  /** A connection registered twice stays registered after one removal: only the
      first node goes. */
  lemma DuplicateSurvivesRemoval(reg: Registry, c: Client)
    ensures c in RemoveClient(AddClient(AddClient(reg, c, true), c, true), c)
  {
    assert RemoveClient([c, c] + reg, c) == [c] + reg;
    assert AddClient(AddClient(reg, c, true), c, true) == [c, c] + reg;
  }

  // ---------------------------------------------------------------- framing

  /** A `field: value` line. */
  function FieldLine(field: string, value: string): string {
    field + ": " + value
  }

  /** The lines of the frame `"event: %s\ndata: %s\n\nretry: %d\n\n"`. */
  function FrameLines(name: string, data: string): seq<string> {
    [FieldLine("event", name), FieldLine("data", data), "", FieldLine("retry", Decimal(SSE_RETRY_TIMEOUT)), ""]
  }

  /** Lines, each followed by a line feed. */
  function Join(lines: seq<string>): string
    decreases |lines|
  {
    if |lines| == 0 then "" else lines[0] + "\n" + Join(lines[1..])
  }

  /** The frame a broadcast sends. When name and data hold no line feed, its lines
      are the event line, the data line, a blank line, the retry line and the blank
      line that ends the frame. */
  function Frame(name: string, data: string): (f: string)
    ensures '\n' !in name && '\n' !in data ==> Lines(f) == FrameLines(name, data)
  {
    var f := Join(FrameLines(name, data));
    if '\n' !in name && '\n' !in data then
      NoLineFeed("event", name);
      NoLineFeed("data", data);
      NoLineFeed("retry", Decimal(SSE_RETRY_TIMEOUT));
      LinesJoin(FrameLines(name, data));
      f
    else f
  }

  /** What a broadcast hands to one client's socket. */
  datatype Delivery = Delivery(client: Client, bytes: string)

  /** `notify_sse_clients`: one frame per registered client, in list order. Failed
      sends are not observed, so the registry comes back whole. */
  datatype Broadcast = Broadcast(deliveries: seq<Delivery>, registry: Registry)

  function Notify(reg: Registry, name: string, data: string): (b: Broadcast)
    ensures b.registry == reg
    ensures |b.deliveries| == |reg|
    ensures forall i :: 0 <= i < |reg| ==> b.deliveries[i] == Delivery(reg[i], Frame(name, data))
  {
    Broadcast(seq(|reg|, i requires 0 <= i < |reg| => Delivery(reg[i], Frame(name, data))), reg)
  }

  /** Every registered client receives the frame, and a later removal is the only way
      a client leaves the registry. */
  lemma NotifyReachesEveryClient(reg: Registry, name: string, data: string, c: Client)
    requires c in reg
    ensures Delivery(c, Frame(name, data)) in Notify(reg, name, data).deliveries
    ensures c in Notify(reg, name, data).registry
  {
    var k := FirstIndex(reg, c).value;
    assert Notify(reg, name, data).deliveries[k] == Delivery(c, Frame(name, data));
  }

  // ---------------------------------------------------------------- the reader

  /** A dispatched event: its type and its data. */
  datatype Event = Event(kind: string, data: string)

  /** The reader's state: events dispatched so far, the event-type and data buffers,
      and the reconnection time last set. */
  datatype Reader = Reader(events: seq<Event>, kind: string, data: string, retry: Option<nat>)

  const NewReader: Reader := Reader([], "", "", None)

  /** The complete lines of a stream (each ends in a line feed). */
  function Lines(s: string): seq<string>
    decreases |s|
  {
    match IndexOf(s, '\n')
    case None => []
    case Some(k) => [s[..k]] + Lines(s[k + 1..])
  }

  lemma LinesCons(a: string, rest: string)
    requires '\n' !in a
    ensures Lines(a + "\n" + rest) == [a] + Lines(rest)
  {
    IndexOfSeparator(a, '\n', rest);
    var s := a + "\n" + rest;
    assert s[..|a|] == a && s[|a| + 1..] == rest;
  }

  /** Joined lines without line feeds of their own read back as the same lines. */
  lemma {:induction false} LinesJoin(lines: seq<string>)
    requires forall i :: 0 <= i < |lines| ==> '\n' !in lines[i]
    ensures Lines(Join(lines)) == lines
    decreases |lines|
  {
    if |lines| > 0 {
      var rest := lines[1..];
      assert Join(lines) == lines[0] + "\n" + Join(rest);
      assert forall i :: 0 <= i < |rest| ==> '\n' !in rest[i] by {
        forall i | 0 <= i < |rest| ensures '\n' !in rest[i] {
          assert rest[i] == lines[i + 1];
        }
      }
      LinesCons(lines[0], Join(rest));
      LinesJoin(rest);
      assert lines == [lines[0]] + rest;
    }
  }

  /** A line's field name and value: the text before the first colon, and the text
      after it without one leading space. A line without a colon is all name. */
  function ParseField(line: string): (string, string) {
    match IndexOf(line, ':')
    case None => (line, "")
    case Some(k) =>
      var v := line[k + 1..];
      (line[..k], if |v| > 0 && v[0] == ' ' then v[1..] else v)
  }

  lemma ParseFieldOf(field: string, value: string)
    requires ':' !in field
    ensures ParseField(FieldLine(field, value)) == (field, value)
  {
    var line := FieldLine(field, value);
    assert line == field + [':'] + (" " + value);
    IndexOfSeparator(field, ':', " " + value);
    assert line[..|field|] == field;
    assert line[|field| + 1..] == " " + value;
  }

  /** An empty line dispatches the buffered event; an empty data buffer dispatches
      nothing. The type defaults to `message`, and the data loses its final line feed. */
  function Dispatch(r: Reader): Reader {
    if r.data == [] then r.(kind := "")
    else
      var kind := if r.kind == [] then "message" else r.kind;
      Reader(r.events + [Event(kind, r.data[..|r.data| - 1])], "", "", r.retry)
  }

  /** A field line: `event` sets the type, `data` appends a line to the data, and
      `retry` with an all-digit value sets the reconnection time. Other fields are
      ignored. */
  function ProcessField(r: Reader, field: string, value: string): Reader {
    if field == "event" then r.(kind := value)
    else if field == "data" then r.(data := r.data + value + "\n")
    else if field == "retry" then
      (if |value| > 0 && AllDigits(value) then r.(retry := Some(DigitsValue(value))) else r)
    else r
  }

  function ProcessLine(r: Reader, line: string): Reader {
    if line == [] then Dispatch(r) else ProcessField(r, ParseField(line).0, ParseField(line).1)
  }

  function Feed(r: Reader, lines: seq<string>): Reader
    decreases |lines|
  {
    if |lines| == 0 then r else Feed(ProcessLine(r, lines[0]), lines[1..])
  }

  /** What a reader that has seen `s` holds. */
  function Read(s: string): Reader {
    Feed(NewReader, Lines(s))
  }

  lemma EventLine(r: Reader, name: string)
    ensures ProcessLine(r, FieldLine("event", name)) == r.(kind := name)
  {
    ParseFieldOf("event", name);
    assert FieldLine("event", name)[0] == 'e';
  }

  lemma DataLine(r: Reader, data: string)
    ensures ProcessLine(r, FieldLine("data", data)) == r.(data := r.data + data + "\n")
  {
    ParseFieldOf("data", data);
    assert FieldLine("data", data)[0] == 'd';
    assert "data" != "event" by { assert "data"[0] != "event"[0]; }
  }

  lemma RetryLine(r: Reader, n: nat)
    ensures ProcessLine(r, FieldLine("retry", Decimal(n))) == r.(retry := Some(n))
  {
    ParseFieldOf("retry", Decimal(n));
    assert FieldLine("retry", Decimal(n))[0] == 'r';
    assert "retry" != "event" by { assert "retry"[0] != "event"[0]; }
    assert "retry" != "data" by { assert "retry"[0] != "data"[0]; }
    DecimalValue(n);
  }

  lemma FeedStep(r: Reader, line: string, rest: seq<string>)
    ensures Feed(r, [line] + rest) == Feed(ProcessLine(r, line), rest)
  {
    assert ([line] + rest)[1..] == rest;
  }

  /** The empty line after the data line dispatches the event. */
  lemma DispatchOne(r: Reader, name: string, data: string)
    requires name != []
    ensures ProcessLine(r.(kind := name, data := data + "\n"), "")
         == Reader(r.events + [Event(name, data)], "", "", r.retry)
  {
    assert (data + "\n")[..|data|] == data;
  }

  /** The lines after the data line. */
  function TailLines(): seq<string> {
    ["", FieldLine("retry", Decimal(SSE_RETRY_TIMEOUT)), ""]
  }

  lemma EventStep(r: Reader, name: string, rest: seq<string>)
    ensures Feed(r, [FieldLine("event", name)] + rest) == Feed(r.(kind := name), rest)
  {
    EventLine(r, name);
    FeedStep(r, FieldLine("event", name), rest);
  }

  lemma DataStep(r: Reader, data: string, rest: seq<string>)
    ensures Feed(r, [FieldLine("data", data)] + rest) == Feed(r.(data := r.data + data + "\n"), rest)
  {
    DataLine(r, data);
    FeedStep(r, FieldLine("data", data), rest);
  }

  lemma FrameLinesSplit(name: string, data: string)
    ensures FrameLines(name, data) == [FieldLine("event", name)] + ([FieldLine("data", data)] + TailLines())
  {
  }

  /** The event and data lines set the type and buffer the data. */
  lemma FeedFrameHead(r: Reader, name: string, data: string, rest: seq<string>)
    requires r.data == []
    ensures Feed(r, [FieldLine("event", name)] + ([FieldLine("data", data)] + rest))
         == Feed(r.(kind := name, data := data + "\n"), rest)
  {
    var r1 := r.(kind := name);
    EventStep(r, name, [FieldLine("data", data)] + rest);
    DataStep(r1, data, rest);
    assert r1.data + data + "\n" == data + "\n";
  }

  /** The empty line dispatches the event and the retry line sets the time. */
  lemma FeedFrameTail(r: Reader, name: string, data: string)
    requires name != []
    ensures Feed(r.(kind := name, data := data + "\n"), TailLines())
         == Reader(r.events + [Event(name, data)], "", "", Some(SSE_RETRY_TIMEOUT))
  {
    var l3 := FieldLine("retry", Decimal(SSE_RETRY_TIMEOUT));
    var r3 := Reader(r.events + [Event(name, data)], "", "", r.retry);
    var r4 := r3.(retry := Some(SSE_RETRY_TIMEOUT));
    DispatchOne(r, name, data);
    RetryLine(r3, SSE_RETRY_TIMEOUT);
    assert ProcessLine(r4, "") == r4;
    FeedStep(r4, "", []);
    FeedStep(r3, l3, [""]);
    FeedStep(r.(kind := name, data := data + "\n"), "", [l3, ""]);
    assert TailLines() == [""] + [l3, ""];
  }

  /** To a reader between events, the frame's lines dispatch one event with the
      broadcast's name and data and set the reconnection time. */
  lemma FeedFrame(r: Reader, name: string, data: string)
    requires r.data == [] && name != []
    ensures Feed(r, FrameLines(name, data)) == Reader(r.events + [Event(name, data)], "", "", Some(SSE_RETRY_TIMEOUT))
  {
    FrameLinesSplit(name, data);
    FeedFrameHead(r, name, data, TailLines());
    FeedFrameTail(r, name, data);
  }

  lemma NoLineFeed(field: string, value: string)
    requires '\n' !in field && '\n' !in value
    ensures '\n' !in FieldLine(field, value)
  {
  }

  /** To a reader between events, a frame is one event carrying the broadcast's name
      and data, and it sets the reconnection time to `SSE_RETRY_TIMEOUT`, when name and
      data hold no line feed and the name is not empty. */
  lemma ReadFrame(r: Reader, name: string, data: string)
    requires r.data == []
    requires '\n' !in name && '\n' !in data && name != []
    ensures Feed(r, Lines(Frame(name, data))) == Reader(r.events + [Event(name, data)], "", "", Some(SSE_RETRY_TIMEOUT))
  {
    var ls := FrameLines(name, data);
    NoLineFeed("event", name);
    NoLineFeed("data", data);
    NoLineFeed("retry", Decimal(SSE_RETRY_TIMEOUT));
    LinesJoin(ls);
    FeedFrame(r, name, data);
  }

  /** A fresh reader given one frame holds exactly that event and the retry time. */
  lemma ReadSingleFrame(name: string, data: string)
    requires '\n' !in name && '\n' !in data && name != []
    ensures Read(Frame(name, data)) == Reader([Event(name, data)], "", "", Some(SSE_RETRY_TIMEOUT))
  {
    ReadFrame(NewReader, name, data);
  }

  lemma JoinCons(a: string, rest: seq<string>)
    ensures Join([a] + rest) == a + "\n" + Join(rest)
  {
    assert ([a] + rest)[1..] == rest;
  }

  /** The lines after the data line print as `"\nretry: 3000\n\n"`. */
  lemma JoinTailLines()
    ensures Join(TailLines()) == "\nretry: 3000\n\n"
  {
    RetryDigits();
    var l3 := FieldLine("retry", "3000");
    JoinCons("", []);
    JoinCons(l3, [""]);
    JoinCons("", [l3, ""]);
    assert TailLines() == [""] + ([l3] + [""]);
    assert l3 + "\n" + ("" + "\n" + "") == "retry: 3000\n\n";
  }

  /** The frame is the text `notify_sse_clients` formats. */
  lemma FrameText(name: string, data: string)
    ensures Frame(name, data) == "event: " + name + "\ndata: " + data + "\n\nretry: 3000\n\n"
  {
    var l0, l1 := FieldLine("event", name), FieldLine("data", data);
    var t := TailLines();
    JoinCons(l1, t);
    JoinCons(l0, [l1] + t);
    assert FrameLines(name, data) == [l0] + ([l1] + t);
    JoinTailLines();
    FrameConcat(name, data, "\nretry: 3000\n\n");
    assert "\n" + "\nretry: 3000\n\n" == "\n\nretry: 3000\n\n";
  }

  lemma FrameConcat(name: string, data: string, tail: string)
    ensures FieldLine("event", name) + "\n" + (FieldLine("data", data) + "\n" + tail)
         == "event: " + name + "\ndata: " + data + ("\n" + tail)
  {
    var a := "event: " + name;
    var d := data + ("\n" + tail);
    assert FieldLine("event", name) == a by { assert "event" + ": " == "event: "; }
    assert FieldLine("data", data) + "\n" + tail == "data: " + d by { assert "data" + ": " == "data: "; }
    calc {
      a + "\n" + ("data: " + d);
      a + ("\n" + ("data: " + d));
      a + (("\n" + "data: ") + d);
      { assert "\n" + "data: " == "\ndata: "; }
      a + ("\ndata: " + d);
      a + "\ndata: " + d;
    }
  }

  lemma RetryDigits()
    ensures Decimal(SSE_RETRY_TIMEOUT) == "3000"
  {
    assert Decimal(3) == "3";
    assert Decimal(30) == "30";
    assert Decimal(300) == "300";
  }
}
