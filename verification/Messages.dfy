/** Messages (internal/domain/message.go) and their flat form in the messages table
    (internal/adapter/repository/message_repo.go). A nil and an empty slice are the same sequence here. */
module Messages {
  import opened Basics
  import opened Reactions

  const TYPE_TEXT := "text"
  const TYPE_SYSTEM := "system"
  const MAX_MESSAGE_CONTENT_LENGTH := 4096

  /** The zero value of a Go time, in nanoseconds since 1970. */
  const ZERO_TIME: int := -62135596800000000000

  datatype Media = Media(url: string, thumbnailUrl: string, mimeType: string, fileSize: int,
                         fileName: string, width: int, height: int)
  datatype Reply = Reply(messageId: Id, senderId: Id, preview: string)
  datatype Forward = Forward(messageId: Id, senderId: Id)

  /** createdAt is in nanoseconds. */
  datatype MessageData = MessageData(id: Id, conversationId: Id, senderId: Id, kind: string,
                                     text: string, mentions: seq<Id>, media: Option<Media>,
                                     replyTo: Option<Reply>, forwardedFrom: Option<Forward>,
                                     reactions: seq<Reaction>, edited: bool, deleted: bool, createdAt: int)

  /** The primary key of a message row; the store keeps milliseconds. */
  datatype RowKey = RowKey(conversationId: Id, createdAt: int, id: Id)

  datatype Columns = Columns(senderId: Id, kind: string, text: string, mentions: seq<Id>,
                             mediaUrl: string, mediaThumbnailUrl: string, mediaMimeType: string,
                             mediaFileSize: int, mediaFileName: string, mediaWidth: int, mediaHeight: int,
                             replyToId: Id, replyToSenderId: Id, replyToPreview: string,
                             forwardedFromId: Id, forwardedFromSenderId: Id,
                             reactions: seq<Reaction>, edited: bool, deleted: bool)

  const NANOS_PER_MILLI := 1_000_000

  /** Rounds down, also before 1970. */
  function Millis(nanos: int): int { nanos / NANOS_PER_MILLI }

  function KeyOf(m: MessageData): RowKey {
    RowKey(m.conversationId, Millis(m.createdAt), m.id)
  }

  const NO_MEDIA := Media("", "", "", 0, "", 0, 0)
  const NO_REPLY := Reply("", "", "")
  const NO_FORWARD := Forward("", "")

  function OrElse<T>(o: Option<T>, default: T): T {
    if o.Some? then o.value else default
  }

  /** Absent parts become empty strings and zeros. */
  function Flatten(m: MessageData): Columns {
    var media, reply := OrElse(m.media, NO_MEDIA), OrElse(m.replyTo, NO_REPLY);
    var fwd := OrElse(m.forwardedFrom, NO_FORWARD);
    Columns(m.senderId, m.kind, m.text, m.mentions,
            media.url, media.thumbnailUrl, media.mimeType, media.fileSize, media.fileName, media.width, media.height,
            reply.messageId, reply.senderId, reply.preview, fwd.messageId, fwd.senderId,
            m.reactions, m.edited, m.deleted)
  }

  /** A part is present when its URL or message id is not empty. */
  function Build(k: RowKey, c: Columns): MessageData {
    MessageData(k.id, k.conversationId, c.senderId, c.kind, c.text, c.mentions,
      if c.mediaUrl != "" then Some(Media(c.mediaUrl, c.mediaThumbnailUrl, c.mediaMimeType, c.mediaFileSize,
                                          c.mediaFileName, c.mediaWidth, c.mediaHeight)) else None,
      if c.replyToId != "" then Some(Reply(c.replyToId, c.replyToSenderId, c.replyToPreview)) else None,
      if c.forwardedFromId != "" then Some(Forward(c.forwardedFromId, c.forwardedFromSenderId)) else None,
      c.reactions, c.edited, c.deleted, k.createdAt * NANOS_PER_MILLI)
  }

  predicate PartsNamed(m: MessageData) {
    && (m.media.Some? ==> m.media.value.url != "")
    && (m.replyTo.Some? ==> m.replyTo.value.messageId != "")
    && (m.forwardedFrom.Some? ==> m.forwardedFrom.value.messageId != "")
  }

  /** A stored message reads back as it was, to the millisecond, exactly when every part that is
      present has a URL or id. */
  lemma ReadBackIff(m: MessageData)
    ensures Build(KeyOf(m), Flatten(m)) == m.(createdAt := Millis(m.createdAt) * NANOS_PER_MILLI) <==> PartsNamed(m)
    ensures m.createdAt - NANOS_PER_MILLI < Build(KeyOf(m), Flatten(m)).createdAt <= m.createdAt
  {
    var b := Build(KeyOf(m), Flatten(m));
    assert b.media == m.media <==> (m.media.Some? ==> m.media.value.url != "");
    assert b.replyTo == m.replyTo <==> (m.replyTo.Some? ==> m.replyTo.value.messageId != "");
    assert b.forwardedFrom == m.forwardedFrom <==> (m.forwardedFrom.Some? ==> m.forwardedFrom.value.messageId != "");
  }

  /** Whatever is in a row, what is read from it can be stored and read again without change, under
      the same key. */
  lemma BuildIsNormalForm(k: RowKey, c: Columns)
    ensures var m := Build(k, c);
      PartsNamed(m) && KeyOf(m) == k && Build(KeyOf(m), Flatten(m)) == m
  {
    MillisOfMultiple(k.createdAt);
    ReadBackIff(Build(k, c));
  }

  lemma MillisOfMultiple(ms: int)
    ensures Millis(ms * NANOS_PER_MILLI) == ms
  { }

  /** Writing back what was read keeps the columns, except that those of a part without URL or id
      are cleared. */
  lemma WriteBackIff(k: RowKey, c: Columns)
    ensures Flatten(Build(k, c)) == c <==>
      && (c.mediaUrl == "" ==> c.mediaThumbnailUrl == "" && c.mediaMimeType == "" && c.mediaFileSize == 0
                               && c.mediaFileName == "" && c.mediaWidth == 0 && c.mediaHeight == 0)
      && (c.replyToId == "" ==> c.replyToSenderId == "" && c.replyToPreview == "")
      && (c.forwardedFromId == "" ==> c.forwardedFromSenderId == "")
  { }

  function Validate(m: MessageData): Option<Error> {
    if m.conversationId == "" || m.senderId == "" then Some(InvalidInput)
    else if m.kind == TYPE_TEXT && m.text == "" then Some(InvalidInput)
    else if |m.text| > MAX_MESSAGE_CONTENT_LENGTH then Some(InvalidInput)
    else if m.kind != TYPE_TEXT && m.kind != TYPE_SYSTEM && m.media.None? then Some(InvalidInput)
    else None
  }

  /** EditMessage's and DeleteMessage's changes to a loaded message. */
  function Edited(m: MessageData, text: string): MessageData {
    m.(text := text, edited := true)
  }

  function Deleted(m: MessageData): MessageData {
    m.(deleted := true, text := "", mentions := [], media := None)
  }

  /** A message object; each load builds a new one. */
  class Message {
    const id: Id
    const conversationId: Id
    const senderId: Id
    const kind: string
    const replyTo: Option<Reply>
    const forwardedFrom: Option<Forward>
    var text: string
    var mentions: seq<Id>
    var media: Option<Media>
    var reactions: seq<Reaction>
    var edited: bool
    var deleted: bool
    var createdAt: int

    function Value(): MessageData
      reads this
    {
      MessageData(id, conversationId, senderId, kind, text, mentions, media, replyTo, forwardedFrom,
                  reactions, edited, deleted, createdAt)
    }

    constructor (m: MessageData)
      ensures Value() == m
    {
      id, conversationId, senderId, kind := m.id, m.conversationId, m.senderId, m.kind;
      replyTo, forwardedFrom, text, mentions, media := m.replyTo, m.forwardedFrom, m.text, m.mentions, m.media;
      reactions, edited, deleted, createdAt := m.reactions, m.edited, m.deleted, m.createdAt;
    }

    method AddReaction(emoji: string, user: Id) returns (r: Added)
      modifies this`reactions
      ensures (r, reactions) == AddTo(old(reactions), emoji, user)
    {
      for i := 0 to |reactions|
        invariant reactions == old(reactions)
        invariant forall j :: 0 <= j < i ==> reactions[j].emoji != emoji
      {
        if reactions[i].emoji == emoji {
          assert GroupOf(reactions, emoji) == i;
          for j := 0 to |reactions[i].users|
            invariant user !in reactions[i].users[..j] && reactions == old(reactions)
          {
            if reactions[i].users[j] == user { return AlreadyThere; }
          }
          if |reactions[i].users| >= MAX_USERS_PER_REACTION { return LimitReached; }
          reactions := reactions[i := reactions[i].(users := reactions[i].users + [user])];
          return Added.Added;
        }
      }
      if |reactions| >= MAX_REACTIONS_PER_MESSAGE { return LimitReached; }
      reactions := reactions + [Reaction(emoji, [user])];
      r := Added.Added;
    }

    method RemoveReaction(emoji: string, user: Id) returns (removed: bool)
      modifies this`reactions
      ensures (removed, reactions) == RemoveFrom(old(reactions), emoji, user)
    {
      for i := 0 to |reactions|
        invariant reactions == old(reactions)
        invariant forall j :: 0 <= j < i ==> reactions[j].emoji != emoji || user !in reactions[j].users
      {
        if reactions[i].emoji == emoji {
          var users := reactions[i].users;
          for j := 0 to |users|
            invariant user !in users[..j] && reactions == old(reactions)
          {
            if users[j] == user {
              assert GroupWith(reactions, emoji, user) == i && IndexOf(users, user) == j;
              reactions := reactions[i := Reaction(emoji, users[..j] + users[j + 1..])];
              if |reactions[i].users| == 0 {
                reactions := reactions[..i] + reactions[i + 1..];
                assert reactions == old(reactions)[..i] + old(reactions)[i + 1..];
              }
              return true;
            }
          }
        }
      }
      removed := false;
    }
  }
}
