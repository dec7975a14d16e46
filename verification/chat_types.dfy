/** Constants and the message record of the chat store (`chat_storage.h`). */
module ChatTypes {
  import opened CStr

  /** Ring capacity. */
  const MAX_MESSAGES: nat := 100
  /** Size of the message text buffer, terminator included. */
  const MAX_MESSAGE_LENGTH: nat := 150
  /** Size of the uuid buffer: 36 characters and the terminator. */
  const MAX_UUID_LENGTH: nat := 37
  /** Size of the username buffer, terminator included. */
  const MAX_USERNAME_LENGTH: nat := 32
  /** Lifetime of the rendered-history cache, in seconds. */
  const CACHE_VALID_TIME: nat := 30
  /** Number of accumulated inserts that triggers a save. */
  const MIN_MESSAGES_TO_SAVE: nat := 5

  /** `chat_message_t`: each string field holds what fits its fixed buffer. */
  datatype Message = Message(uuid: string, username: string, text: string, timestamp: uint32)

  /** A slot of the zero-initialised static store. */
  const EmptyMessage: Message := Message("", "", "", 0)

  /** Every field fits its buffer together with the terminator. */
  predicate FitsBuffers(m: Message) {
    |m.uuid| < MAX_UUID_LENGTH && |m.username| < MAX_USERNAME_LENGTH && |m.text| < MAX_MESSAGE_LENGTH
  }

  /** The three `strlcpy` calls that fill a record whose text buffer holds
      `textSize` bytes, terminator included, plus its timestamp. */
  function CopyFields(uuid: string, username: string, text: string, timestamp: uint32, textSize: nat): (m: Message)
    requires textSize >= 1
    ensures |m.uuid| < MAX_UUID_LENGTH && |m.username| < MAX_USERNAME_LENGTH && |m.text| < textSize
    ensures m.timestamp == timestamp
    ensures m.text <= text
    ensures |uuid| < MAX_UUID_LENGTH && |username| < MAX_USERNAME_LENGTH && |text| < textSize
            ==> m == Message(uuid, username, text, timestamp)
  {
    Message(Strlcpy(uuid, MAX_UUID_LENGTH), Strlcpy(username, MAX_USERNAME_LENGTH),
            Strlcpy(text, textSize), timestamp)
  }

  /** The copy into a `chat_message_t` slot. */
  function StoreFields(uuid: string, username: string, text: string, timestamp: uint32): (m: Message)
    ensures FitsBuffers(m)
    ensures m.timestamp == timestamp
    ensures |uuid| < MAX_UUID_LENGTH && |username| < MAX_USERNAME_LENGTH && |text| < MAX_MESSAGE_LENGTH
            ==> m == Message(uuid, username, text, timestamp)
  {
    CopyFields(uuid, username, text, timestamp, MAX_MESSAGE_LENGTH)
  }
}
