/** The older, self-contained store inside `chat_server.c`: the same 100-slot
    ring, saved as a whole after every insert, and the handler that accepts a
    posted message, stores it and announces it to the event-stream clients. */
module ChatServer {
  import opened CStr
  import opened ChatTypes
  import opened RingBuffer
  import ChatStorage
  import Sse

  /** The ring and the number of whole-store saves started so far. */
  datatype Server = Server(ring: Ring, saves: nat)

  predicate Valid(s: Server) {
    RingBuffer.Valid(s.ring)
  }

  const Initial: Server := Server(Empty(), 0)

  /** `add_chat_message`: copy the fields into the slot at the cursor (each cut to
      its buffer), stamp it, advance the ring, then save the whole store. The lock
      is taken with an unbounded wait, so the call always succeeds. */
  function AddChatMessage(s: Server, uuid: string, username: string, text: string, now: uint32): (s': Server)
    requires Valid(s)
    ensures Valid(s')
    ensures s'.saves == s.saves + 1
    ensures Snapshot(s'.ring) == LastN(Snapshot(s.ring) + [StoreFields(uuid, username, text, now)], MAX_MESSAGES)
  {
    var m := StoreFields(uuid, username, text, now);
    PushSnapshot(s.ring, m);
    Server(Push(s.ring, m), s.saves + 1)
  }

  /** A run of inserts, first to last. */
  function AddAll(s: Server, ps: seq<ChatStorage.Post>): (s': Server)
    requires Valid(s)
    ensures Valid(s')
    decreases |ps|
  {
    if |ps| == 0 then s
    else
      var p := ps[|ps| - 1];
      AddChatMessage(AddAll(s, ps[..|ps| - 1]), p.uuid, p.username, p.text, p.now)
  }

  /** After `k` posts from the empty store, `get_chat_messages_json` lists the last
      `min(k, 100)` stored messages in posting order, and `k` saves were started. */
  lemma {:induction false} AddAllFromInitial(ps: seq<ChatStorage.Post>)
    ensures Snapshot(AddAll(Initial, ps).ring) == LastN(ChatStorage.StoredAll(ps), MAX_MESSAGES)
    ensures AddAll(Initial, ps).saves == |ps|
    decreases |ps|
  {
    if |ps| > 0 {
      var init := ps[..|ps| - 1];
      var p := ps[|ps| - 1];
      var s1 := AddAll(Initial, init);
      AddAllFromInitial(init);
      ChatStorage.StoredAllSnoc(ps);
      LastNAppend(ChatStorage.StoredAll(init), ChatStorage.Stored(p), MAX_MESSAGES);
    } else {
      assert |Snapshot(Empty())| == 0;
    }
  }

  // ---------------------------------------------------------------- posting

  /** The three string members of a parsed request body; a member that is absent
      or not a string reads as `None`. */
  datatype Body = Body(uuid: Option<string>, username: Option<string>, text: Option<string>)

  /** What the handler answers and what it leaves behind. `broadcast` is the
      `message` event sent to the registered clients, if any was sent. */
  datatype PostResult<S> = PostResult(status: int, error: Option<string>, server: S,
                                      broadcast: Option<Sse.Broadcast>)

  const BAD_REQUEST: int := 400
  const CREATED: int := 201

  /** The record the handler announces: the fields as submitted, not as stored,
      with a second clock reading. */
  function Announced(uuid: string, username: string, text: string, notifyNow: uint32): Message {
    Message(uuid, username, text, notifyNow)
  }

  /** The request is well formed and every member is present. */
  predicate Complete(body: Option<Body>) {
    body.Some? && body.value.uuid.Some? && body.value.username.Some? && body.value.text.Some?
  }

  /** The handler's checks for a text-length limit `maxLen`, in order: invalid
      JSON, then a missing member, then an overlong text. The result is the error
      answered with 400, or `None` when the post is accepted. The request body is
      parsed elsewhere (`body` is `None` when it is not JSON). */
  function Rejection(maxLen: nat, body: Option<Body>): (e: Option<string>)
    ensures e.None? <==> Complete(body) && |body.value.text.value| <= maxLen
    ensures body.None? ==> e == Some("Invalid JSON")
    ensures Complete(body) && |body.value.text.value| > maxLen ==> e == Some("Message too long")
  {
    if body.None? then Some("Invalid JSON")
    else if !Complete(body) then Some("Missing required fields")
    else if |body.value.text.value| > maxLen then Some("Message too long")
    else None
  }

  /** The handler's decision procedure for a text-length limit `maxLen`: a rejected
      post is answered with 400 and changes nothing; anything else is stored and
      announced with 201. `render` stands for the JSON printer of the announced
      record. */
  function Handle(maxLen: nat, s: Server, body: Option<Body>, now: uint32, notifyNow: uint32,
                  reg: Sse.Registry, render: Message -> string): (r: PostResult<Server>)
    requires Valid(s)
    ensures Valid(r.server)
    ensures r.status == CREATED <==> Complete(body) && |body.value.text.value| <= maxLen
    ensures r.status != CREATED ==> r.status == BAD_REQUEST && r.server == s && r.broadcast.None?
                                    && r.error.Some? && r.error == Rejection(maxLen, body)
    ensures r.status == CREATED ==>
              var b := body.value;
              && r.error.None?
              && r.server.saves == s.saves + 1
              && Snapshot(r.server.ring)
                 == LastN(Snapshot(s.ring) + [StoreFields(b.uuid.value, b.username.value, b.text.value, now)],
                          MAX_MESSAGES)
              && r.broadcast == Some(Sse.Notify(reg, "message",
                   render(Announced(b.uuid.value, b.username.value, b.text.value, notifyNow))))
  {
    match Rejection(maxLen, body)
    case Some(e) => PostResult(BAD_REQUEST, Some(e), s, None)
    case None =>
      var b := body.value;
      var s' := AddChatMessage(s, b.uuid.value, b.username.value, b.text.value, now);
      var note := Announced(b.uuid.value, b.username.value, b.text.value, notifyNow);
      PostResult(CREATED, None, s', Some(Sse.Notify(reg, "message", render(note))))
  }

  /** `post_message_handler` as written: the text may be up to `MAX_MESSAGE_LENGTH`
      bytes long, one more than its slot holds. */
  function PostMessage(s: Server, body: Option<Body>, now: uint32, notifyNow: uint32,
                       reg: Sse.Registry, render: Message -> string): (r: PostResult<Server>)
    requires Valid(s)
    ensures Valid(r.server)
    ensures r.status == CREATED <==> Complete(body) && |body.value.text.value| <= MAX_MESSAGE_LENGTH
    ensures Complete(body) && |body.value.text.value| > MAX_MESSAGE_LENGTH
            ==> r == PostResult(BAD_REQUEST, Some("Message too long"), s, None)
  {
    Handle(MAX_MESSAGE_LENGTH, s, body, now, notifyNow, reg, render)
  }

  /** The newest stored message. */
  function Newest(s: Server): (m: Message)
    requires Valid(s) && s.ring.count > 0
  {
    Snapshot(s.ring)[s.ring.count - 1]
  }

  /** The newest message after an accepted post is the posted one as stored. */
  lemma AcceptedIsNewest(maxLen: nat, s: Server, body: Option<Body>, now: uint32, notifyNow: uint32,
                         reg: Sse.Registry, render: Message -> string)
    requires Valid(s)
    requires Handle(maxLen, s, body, now, notifyNow, reg, render).status == CREATED
    ensures Handle(maxLen, s, body, now, notifyNow, reg, render).server.ring.count > 0
    ensures Newest(Handle(maxLen, s, body, now, notifyNow, reg, render).server)
            == StoreFields(body.value.uuid.value, body.value.username.value, body.value.text.value, now)
  {
    var r := Handle(maxLen, s, body, now, notifyNow, reg, render);
    var m := StoreFields(body.value.uuid.value, body.value.username.value, body.value.text.value, now);
    var t := Snapshot(s.ring) + [m];
    assert LastN(t, MAX_MESSAGES)[|LastN(t, MAX_MESSAGES)| - 1] == t[|t| - 1];
  }

  /** A text of exactly `MAX_MESSAGE_LENGTH` bytes passes the length check, is
      announced whole, and is stored without its last byte. */
  lemma ExactCapTruncates(s: Server, uuid: string, username: string, text: string, now: uint32,
                          notifyNow: uint32, reg: Sse.Registry, render: Message -> string)
    requires Valid(s) && |text| == MAX_MESSAGE_LENGTH
    ensures var r := PostMessage(s, Some(Body(Some(uuid), Some(username), Some(text))), now, notifyNow, reg, render);
            && r.status == CREATED
            && r.server.ring.count > 0
            && Newest(r.server).text == text[..MAX_MESSAGE_LENGTH - 1] != text
            && r.broadcast == Some(Sse.Notify(reg, "message", render(Announced(uuid, username, text, notifyNow))))
  {
    var body := Some(Body(Some(uuid), Some(username), Some(text)));
    AcceptedIsNewest(MAX_MESSAGE_LENGTH, s, body, now, notifyNow, reg, render);
    assert |text[..MAX_MESSAGE_LENGTH - 1]| != |text|;
  }

  /** The narrower repair: keep the slot and lower the limit, so that the text
      leaves room for the terminator. It rejects a 150-byte text. */
  function PostMessageChecked(s: Server, body: Option<Body>, now: uint32, notifyNow: uint32,
                              reg: Sse.Registry, render: Message -> string): (r: PostResult<Server>)
    requires Valid(s)
    ensures Valid(r.server)
    ensures r.status == CREATED <==> Complete(body) && |body.value.text.value| < MAX_MESSAGE_LENGTH
  {
    Handle(MAX_MESSAGE_LENGTH - 1, s, body, now, notifyNow, reg, render)
  }

  /** With the corrected limit an accepted text is stored exactly as submitted and
      announced: what the clients are told is what the history holds. */
  lemma CheckedStoresWhatItAnnounces(s: Server, uuid: string, username: string, text: string,
                                     now: uint32, notifyNow: uint32, reg: Sse.Registry,
                                     render: Message -> string)
    requires Valid(s)
    ensures var r := PostMessageChecked(s, Some(Body(Some(uuid), Some(username), Some(text))), now, notifyNow, reg, render);
            r.status == CREATED ==>
              && r.server.ring.count > 0
              && Newest(r.server).text == text
              && r.broadcast == Some(Sse.Notify(reg, "message", render(Announced(uuid, username, text, notifyNow))))
  {
    var body := Some(Body(Some(uuid), Some(username), Some(text)));
    if Handle(MAX_MESSAGE_LENGTH - 1, s, body, now, notifyNow, reg, render).status == CREATED {
      AcceptedIsNewest(MAX_MESSAGE_LENGTH - 1, s, body, now, notifyNow, reg, render);
    }
  }

  // ------------------------------------------------- the widened text slot

  /** Size of the widened text buffer: the longest accepted text and its terminator. */
  const WIDE_TEXT_BUFFER: nat := MAX_MESSAGE_LENGTH + 1

  /** The store repaired the other way: the limit stays at `MAX_MESSAGE_LENGTH` and
      the text slot grows to `WIDE_TEXT_BUFFER` bytes. It is seen through the
      history it lists, oldest first, which is what the ring presents
      (`RingBuffer.PushSnapshot`), and the number of saves started. */
  datatype WideServer = WideServer(history: seq<Message>, saves: nat)

  predicate WideValid(s: WideServer) {
    |s.history| <= MAX_MESSAGES
  }

  /** The widened store as the as-written one would present it. */
  function Widen(s: Server): (w: WideServer)
    requires Valid(s)
    ensures WideValid(w)
  {
    WideServer(Snapshot(s.ring), s.saves)
  }

  /** `add_chat_message` into the widened slot. */
  function AddWide(s: WideServer, uuid: string, username: string, text: string, now: uint32): (s': WideServer)
    requires WideValid(s)
    ensures WideValid(s')
    ensures s'.saves == s.saves + 1
    ensures |s'.history| > 0 && s'.history[|s'.history| - 1] == CopyFields(uuid, username, text, now, WIDE_TEXT_BUFFER)
    ensures s'.history[..|s'.history| - 1] == LastN(s.history, MAX_MESSAGES - 1)
  {
    var t := s.history + [CopyFields(uuid, username, text, now, WIDE_TEXT_BUFFER)];
    var h := LastN(t, MAX_MESSAGES);
    assert h[..|h| - 1] == LastN(s.history, MAX_MESSAGES - 1);
    WideServer(h, s.saves + 1)
  }

  /** `post_message_handler` with the documented limit and the widened slot. */
  function PostMessageWide(s: WideServer, body: Option<Body>, now: uint32, notifyNow: uint32,
                           reg: Sse.Registry, render: Message -> string): (r: PostResult<WideServer>)
    requires WideValid(s)
    ensures WideValid(r.server)
    ensures r.status == CREATED <==> Complete(body) && |body.value.text.value| <= MAX_MESSAGE_LENGTH
    ensures r.status != CREATED ==> r.status == BAD_REQUEST && r.server == s && r.broadcast.None?
                                    && r.error == Rejection(MAX_MESSAGE_LENGTH, body)
    ensures r.status == CREATED ==>
              var b := body.value;
              var h := r.server.history;
              && r.error.None?
              && r.server.saves == s.saves + 1
              && |h| > 0
              && h[..|h| - 1] == LastN(s.history, MAX_MESSAGES - 1)
              && h[|h| - 1].text == b.text.value
              && h[|h| - 1] == CopyFields(b.uuid.value, b.username.value, b.text.value, now, WIDE_TEXT_BUFFER)
              && r.broadcast == Some(Sse.Notify(reg, "message",
                   render(Announced(b.uuid.value, b.username.value, b.text.value, notifyNow))))
  {
    match Rejection(MAX_MESSAGE_LENGTH, body)
    case Some(e) => PostResult(BAD_REQUEST, Some(e), s, None)
    case None =>
      var b := body.value;
      var s' := AddWide(s, b.uuid.value, b.username.value, b.text.value, now);
      var note := Announced(b.uuid.value, b.username.value, b.text.value, notifyNow);
      PostResult(CREATED, None, s', Some(Sse.Notify(reg, "message", render(note))))
  }

  /** With the widened slot every text of up to `MAX_MESSAGE_LENGTH` bytes is
      accepted, stored whole as the newest message, and announced: what the
      clients are told is what the history holds. */
  lemma WideStoresWhatItAnnounces(s: WideServer, uuid: string, username: string, text: string,
                                  now: uint32, notifyNow: uint32, reg: Sse.Registry,
                                  render: Message -> string)
    requires WideValid(s)
    ensures var r := PostMessageWide(s, Some(Body(Some(uuid), Some(username), Some(text))), now, notifyNow, reg, render);
            && (r.status == CREATED <==> |text| <= MAX_MESSAGE_LENGTH)
            && (r.status == CREATED ==>
                  && r.server.saves == s.saves + 1
                  && |r.server.history| > 0
                  && r.server.history[|r.server.history| - 1].text == text
                  && r.server.history[|r.server.history| - 1].timestamp == now
                  && r.broadcast == Some(Sse.Notify(reg, "message", render(Announced(uuid, username, text, notifyNow)))))
  {
  }

  /** The widening changes nothing for a text that already fitted the old slot:
      both handlers answer alike and list the same history afterwards. */
  lemma WideAgreesBelowCap(s: Server, body: Option<Body>, now: uint32, notifyNow: uint32,
                           reg: Sse.Registry, render: Message -> string)
    requires Valid(s)
    requires Complete(body) ==> |body.value.text.value| < MAX_MESSAGE_LENGTH
    ensures var r := PostMessage(s, body, now, notifyNow, reg, render);
            var w := PostMessageWide(Widen(s), body, now, notifyNow, reg, render);
            && w.status == r.status && w.error == r.error && w.broadcast == r.broadcast
            && w.server == Widen(r.server)
  {
  }
}
