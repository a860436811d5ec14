/** The service (internal/service) as a class: ordered calls to the repositories, the limiter, the
    cache and the publishers, with their early exits. Every remote statement and every publication has
    its own fate; the contracts give answer and state for all of them in terms of ServiceSpec. */
module ChatServices {
  import opened Basics
  import opened Conversations
  import opened ConversationRepository
  import opened MessageRepository
  import opened Messages
  import opened Paging
  import opened RateLimiting
  import opened ServiceRuns
  import opened ServiceSpec
  import opened Terms
  import CS = ConversationStore
  import MR = MessageRuns
  import MS = MessageStore
  import Unread

  class ChatService {
    const conversations: ConversationRepo
    const messages: MessageRepo
    const cache: Unread.CacheStore
    const limiter: RateLimiter
    /** What was stored and what was published, in order. */
    ghost var trace: seq<MR.Event>
    /** Successful sends and reads, in order. */
    ghost var history: seq<Unread.Event>
    /** For each user, which of the limiter's calls ended in a successful send. */
    ghost var sends: map<Id, set<int>>

    constructor (conversations: ConversationRepo, messages: MessageRepo, cache: Unread.CacheStore, limiter: RateLimiter)
      ensures this.conversations == conversations && this.messages == messages
      ensures this.cache == cache && this.limiter == limiter && trace == [] && history == [] && sends == map[]
    {
      this.conversations, this.messages, this.cache, this.limiter := conversations, messages, cache, limiter;
      trace, history, sends := [], [], map[];
    }

    ghost function State(): World
      reads this, conversations, messages, cache, limiter
    {
      World(conversations.Snapshot(), messages.Snapshot(), cache.unread, limiter.calls, trace, history, sends)
    }

    ghost predicate TraceOk()
      reads this`trace, messages
    {
      Traced(messages.Snapshot(), trace)
    }

    method Publish(id: Id, fate: Fate)
      requires TraceOk() && MR.Stored(id) in trace
      modifies this`trace
      ensures TraceOk() && trace == old(trace) + Announced(id, fate)
    {
      AnnounceTraced(messages.Snapshot(), trace, id, fate);
      if fate != Refused { trace := trace + [MR.Published(id)]; }
    }

    /** The event goes to Kafka and to the clients; a failure of one does not stop the other. */
    method PublishTwice(id: Id, kafka: Fate, push: Fate)
      requires TraceOk() && MR.Stored(id) in trace
      modifies this`trace
      ensures TraceOk() && trace == old(trace) + AnnouncedTwice(id, kafka, push)
    {
      Publish(id, kafka);
      assert MR.Stored(id) in old(trace) + Announced(id, kafka);
      Publish(id, push);
    }

    /** The last loop of SendMessage. Failures are only logged. */
    method IncrementOthers(members: seq<Id>, sender: Id, conversationId: Id, fates: nat -> Fate)
      modifies cache
      ensures cache.unread == Unread.BumpReached(old(cache.unread), members, sender, conversationId, fates)
    {
      for i := 0 to |members|
        invariant cache.unread == Unread.BumpReached(old(cache.unread), members[..i], sender, conversationId, fates)
      {
        assert members[..i + 1][..i] == members[..i];
        if members[i] != sender {
          var _ := cache.IncrementUnread(members[i], conversationId, fates(i));
        }
      }
      assert members[..|members|] == members;
    }

    // ---- sending ----

    /** SendMessage up to the point where the message is valid. */
    method CheckSend(cmd: SendCommand, id: Id, now: int, fates: SendFates) returns (r: Result<Row>)
      requires limiter.Valid() && NotBefore(limiter.Calls(cmd.senderId), now)
      modifies limiter
      ensures limiter.Valid() && limiter.calls == CallsAfter(old(limiter.calls), cmd.senderId, now, fates.limiter)
      ensures (if r.Ok? then None else Some(r.error)) == RefusalOf(cmd, id, now, fates, old(State()))
      ensures r.Ok? ==> r.value == Loaded(conversations.Snapshot(), cmd.conversationId)
    {
      var allowed := limiter.AllowMessage(cmd.senderId, now, fates.limiter);
      if allowed.Err? { return Err(allowed.error); }
      if !allowed.value { return Err(RateLimited); }
      var found := conversations.FindById(cmd.conversationId, fates.conversation);
      if found.Err? { return Err(found.error); }
      var conv := new Conversation(found.value);
      var isMember := conv.HasMember(cmd.senderId);
      if !isMember { return Err(NotChatMember); }
      if conv.onlyAdminsCanSend {
        var isAdmin := conv.IsAdmin(cmd.senderId);
        if !isAdmin { return Err(Forbidden); }
      }
      var invalid := Validate(NewMessage(id, cmd));
      if invalid.Some? { return Err(invalid.value); }
      r := found;
    }

    /** Storing the new message; the trace records it as soon as its row is in. */
    method StoreMessage(cmd: SendCommand, id: Id, now: int, fates: SendFates) returns (r: Result<MessageData>)
      requires TraceOk() && IsNewId(id, messages.Snapshot())
      modifies this`trace, messages
      ensures TraceOk() && (fates.row != Refused ==> MR.Stored(id) in trace)
      ensures messages.Snapshot() == AfterStore(Stamped(id, cmd, now), fates, old(messages.Snapshot()))
      ensures trace == if fates.row == Refused then old(trace) else old(trace) + [MR.Stored(id)]
      ensures r == if fates.row == Done && fates.lookup == Done then Ok(Stamped(id, cmd, now)) else Err(StoreFailure)
    {
      StoreTraced(Stamped(id, cmd, now), fates, messages.Snapshot(), trace);
      var msg := new Message(NewMessage(id, cmd));
      var error := messages.Create(msg, now, fates.row, fates.lookup);
      assert msg.Value() == Stamped(id, cmd, now);
      if fates.row != Refused { trace := trace + [MR.Stored(id)]; }
      r := if error.Some? then Err(error.value) else Ok(msg.Value());
    }

    /** SendMessage up to the point where it can no longer fail. */
    method CheckAndStore(cmd: SendCommand, id: Id, now: int, fates: SendFates)
      returns (r: Result<MessageData>, members: seq<Id>)
      requires limiter.Valid() && NotBefore(limiter.Calls(cmd.senderId), now)
      requires TraceOk() && IsNewId(id, messages.Snapshot())
      modifies this`trace, messages, limiter
      ensures TraceOk() && limiter.Valid()
      ensures r == SendAnswer(cmd, id, now, fates, old(State()))
      ensures State() == AfterStoring(cmd, id, now, fates, old(State()))
      ensures r.Ok? ==> MR.Stored(id) in trace
      ensures r.Ok? ==> cmd.conversationId in conversations.conversations
                        && members == Ids(conversations.conversations[cmd.conversationId].participants)
    {
      members := [];
      var found := CheckSend(cmd, id, now, fates);
      if found.Err? { return Err(found.error), []; }
      members := Ids(found.value.participants);
      r := StoreMessage(cmd, id, now, fates);
    }

    /** SendMessage after the message is stored; nothing here can fail the call. */
    method Spread(m: MessageData, members: seq<Id>, fates: SendFates)
      requires TraceOk() && MR.Stored(m.id) in trace
      modifies this`trace, this`history, conversations, cache
      ensures TraceOk()
      ensures State() == AfterSpreading(m, members, fates, old(State()))
    {
      var _ := conversations.UpdateLastMessage(m.conversationId, Preview(m), fates.lastMessage);
      PublishTwice(m.id, fates.kafka, fates.push);
      IncrementOthers(members, m.senderId, m.conversationId, fates.unread);
      history := history + [Unread.Sent(m.conversationId, m.senderId, members)];
    }

    /** A refused send writes nothing. A stored one is published, counted and becomes the last message
        as far as those statements go, and fails only if one of its two inserts does. */
    method SendMessage(cmd: SendCommand, id: Id, now: int, fates: SendFates) returns (r: Result<MessageData>)
      requires limiter.Valid() && NotBefore(limiter.Calls(cmd.senderId), now)
      requires TraceOk() && IsNewId(id, messages.Snapshot())
      modifies this, conversations, messages, cache, limiter
      ensures TraceOk() && limiter.Valid()
      ensures r == SendAnswer(cmd, id, now, fates, old(State()))
      ensures State() == Apply(Request.SendMessage(cmd, id, now, fates), old(State()))
    {
      var members;
      ghost var call := |CallsOf(limiter.calls, cmd.senderId)|;
      r, members := CheckAndStore(cmd, id, now, fates);
      if r.Err? { return; }
      sends := sends[cmd.senderId := SendsOf(sends, cmd.senderId) + {call}];
      ghost var w := State();
      Spread(r.value, members, fates);
      assert State() == AfterSpreading(r.value, members, fates, w);
    }

    // ---- changes to stored messages ----

    /** Update is told to write m back under the key it was read from. */
    method WriteAndPublish(id: Id, m: MessageData, fate: nat -> Fate) returns (error: Option<Error>)
      requires TraceOk() && id in messages.messagesById && KeyOf(m) == messages.messagesById[id]
      modifies this`trace, messages
      ensures TraceOk()
      ensures error == if fate(2) == Done then None else Some(StoreFailure)
      ensures State() == WrittenBack(id, m, fate, old(State()))
    {
      assert MR.Stored(KeyOf(m).id) in trace;
      error := messages.Update(m, fate(2));
      if error.Some? { return; }
      PublishTwice(id, fate(3), fate(4));
    }

    lemma ReadKey(id: Id)
      requires TraceOk() && MS.Findable(messages.Snapshot(), id)
      ensures KeyOf(MS.Read(messages.Snapshot(), id)) == messages.messagesById[id]
      ensures messages.messagesById[id].id == id && messages.messagesById[id] in messages.messages
      ensures MR.Stored(id) in trace
    {
      var k := messages.messagesById[id];
      assert k.(id := id) == k;
      BuildIsNormalForm(k, messages.messages[k]);
    }

    /** EditMessage up to the point where the message is written back. */
    method CheckEdit(id: Id, user: Id, newText: string, fate: nat -> Fate) returns (r: Result<MessageData>)
      requires TraceOk()
      ensures r.Ok? <==> Accepted(messages.Snapshot(), id, MR.Edit(user, newText), fate)
      ensures r.Ok? ==> r.value == Edited(MS.Read(messages.Snapshot(), id), newText)
      ensures r.Err? ==> r == EditAnswer(id, user, newText, fate, messages.Snapshot())
    {
      var found := messages.FindById(id, fate(0), fate(1));
      if found.Err? { return Err(found.error); }
      var msg := new Message(found.value);
      if msg.senderId != user { return Err(Forbidden); }
      if msg.deleted { return Err(MessageDeleted); }
      if msg.kind != TYPE_TEXT { return Err(InvalidInput); }
      if |newText| > MAX_MESSAGE_CONTENT_LENGTH { return Err(InvalidInput); }
      msg.text := newText;
      msg.edited := true;
      assert msg.Value() == Edited(found.value, newText);
      r := Ok(msg.Value());
    }

    method EditMessage(id: Id, user: Id, newText: string, fate: nat -> Fate) returns (r: Result<MessageData>)
      requires TraceOk()
      modifies this`trace, messages
      ensures TraceOk()
      ensures r == EditAnswer(id, user, newText, fate, old(messages.Snapshot()))
      ensures State() == Apply(Request.EditMessage(id, user, newText, fate), old(State()))
    {
      EditSteps(id, user, newText, fate, State());
      r := CheckEdit(id, user, newText, fate);
      if r.Ok? {
        ReadKey(id);
        var error := WriteAndPublish(id, r.value, fate);
        if error.Some? { r := Err(error.value); }
      }
    }

    /** DeleteMessage up to the point where the message is written back. */
    method CheckDelete(id: Id, user: Id, fate: nat -> Fate) returns (r: Result<MessageData>)
      requires TraceOk()
      ensures r.Ok? <==> Accepted(messages.Snapshot(), id, MR.Delete(user), fate)
      ensures r.Ok? ==> r.value == Deleted(MS.Read(messages.Snapshot(), id))
      ensures r.Err? ==> Some(r.error) == DeleteAnswer(id, user, fate, messages.Snapshot())
    {
      var found := messages.FindById(id, fate(0), fate(1));
      if found.Err? { return Err(found.error); }
      var msg := new Message(found.value);
      if msg.senderId != user { return Err(Forbidden); }
      msg.deleted := true;
      msg.text, msg.mentions := "", [];
      msg.media := None;
      assert msg.Value() == Deleted(found.value);
      r := Ok(msg.Value());
    }

    method DeleteMessage(id: Id, user: Id, fate: nat -> Fate) returns (error: Option<Error>)
      requires TraceOk()
      modifies this`trace, messages
      ensures TraceOk()
      ensures error == DeleteAnswer(id, user, fate, old(messages.Snapshot()))
      ensures State() == Apply(Request.DeleteMessage(id, user, fate), old(State()))
    {
      DeleteSteps(id, user, fate, State());
      var found := CheckDelete(id, user, fate);
      if found.Ok? {
        ReadKey(id);
        error := WriteAndPublish(id, found.value, fate);
      } else {
        error := Some(found.error);
      }
    }

    method CheckReaction(id: Id, user: Id, fate: nat -> Fate) returns (error: Option<Error>)
      requires TraceOk()
      ensures error == ReactRefusal(conversations.Snapshot(), messages.Snapshot(), id, user, fate)
      ensures error.None? ==> MR.Stored(id) in trace
    {
      var found := messages.FindById(id, fate(0), fate(1));
      if found.Err? { return Some(found.error); }
      ReadKey(id);
      var conv := conversations.FindById(found.value.conversationId, fate(2));
      if conv.Err? { return Some(conv.error); }
      var c := new Conversation(conv.value);
      var isMember := c.HasMember(user);
      error := if isMember then None else Some(NotChatMember);
    }

    /** fate(0..2) are those of the checks, fate(3..5) those of the repository's own two reads and one
        write, fate(6..7) those of the publications. */
    method AddReaction(id: Id, user: Id, emoji: string, fate: nat -> Fate) returns (error: Option<Error>)
      requires TraceOk()
      modifies this`trace, messages
      ensures TraceOk()
      ensures error == ReactAnswer(conversations.Snapshot(), old(messages.Snapshot()), id, user, emoji, fate)
      ensures State() == Apply(Request.AddReaction(id, user, emoji, fate), old(State()))
    {
      FirstFive(fate);
      error := CheckReaction(id, user, fate);
      if error.Some? { return; }
      error := ReactAndPublish(id, user, emoji, fate);
    }

    /** AddReaction after its checks. */
    method ReactAndPublish(id: Id, user: Id, emoji: string, fate: nat -> Fate) returns (error: Option<Error>)
      requires TraceOk() && MR.Stored(id) in trace && MS.Findable(messages.Snapshot(), id)
      modifies this`trace, messages
      ensures TraceOk()
      ensures error == MS.AddError(old(messages.Snapshot()), id, emoji, user, fate(3), fate(4), fate(5))
      ensures messages.Snapshot() == if fate(3) == Done && fate(4) == Done
                                     then MR.AfterChange(id, MR.React(emoji, user), fate(5), old(messages.Snapshot()))
                                     else old(messages.Snapshot())
      ensures trace == if error.None? then old(trace) + AnnouncedTwice(id, fate(6), fate(7)) else old(trace)
    {
      ReactionChange(id, user, emoji, fate(5), messages.Snapshot());
      error := messages.AddReaction(id, emoji, user, fate, 3);
      if error.Some? { return; }
      PublishTwice(id, fate(6), fate(7));
    }

    /** Membership is not asked for, and the event goes out even when there was nothing to remove. */
    method RemoveReaction(id: Id, user: Id, emoji: string, fate: nat -> Fate) returns (error: Option<Error>)
      requires TraceOk()
      modifies this`trace, messages
      ensures TraceOk()
      ensures error == UnreactAnswer(old(messages.Snapshot()), id, user, emoji, fate)
      ensures State() == Apply(Request.RemoveReaction(id, user, emoji, fate), old(State()))
    {
      FirstFive(fate);
      var found := messages.FindById(id, fate(0), fate(1));
      if found.Err? { return Some(found.error); }
      ReadKey(id);
      error := UnreactAndPublish(id, user, emoji, fate);
    }

    /** RemoveReaction after it has read the message. */
    method UnreactAndPublish(id: Id, user: Id, emoji: string, fate: nat -> Fate) returns (error: Option<Error>)
      requires TraceOk() && MR.Stored(id) in trace && MS.Findable(messages.Snapshot(), id)
      modifies this`trace, messages
      ensures TraceOk()
      ensures error == MS.RemoveError(old(messages.Snapshot()), id, emoji, user, fate(2), fate(3), fate(4))
      ensures messages.Snapshot() == if fate(2) == Done && fate(3) == Done
                                     then MR.AfterChange(id, MR.Unreact(emoji, user), fate(4), old(messages.Snapshot()))
                                     else old(messages.Snapshot())
      ensures trace == if error.None? then old(trace) + AnnouncedTwice(id, fate(5), fate(6)) else old(trace)
    {
      UnreactionChange(id, user, emoji, fate(4), messages.Snapshot());
      error := messages.RemoveReaction(id, emoji, user, fate, 2);
      if error.Some? { return; }
      PublishTwice(id, fate(5), fate(6));
    }

    // ---- reading ----

    method CheckRead(conversationId: Id, user: Id, messageId: Id, fate: nat -> Fate) returns (error: Option<Error>)
      requires TraceOk()
      ensures error == ReadRefusal(conversations.Snapshot(), messages.Snapshot(), conversationId, user, messageId, fate)
      ensures error.None? ==> MR.Stored(messageId) in trace
    {
      var found := conversations.FindById(conversationId, fate(0));
      if found.Err? { return Some(found.error); }
      var c := new Conversation(found.value);
      var isMember := c.HasMember(user);
      if !isMember { return Some(NotChatMember); }
      var msg := messages.FindById(messageId, fate(1), fate(2));
      if msg.Err? { return Some(msg.error); }
      if msg.value.conversationId != conversationId { return Some(NotFound); }
      ReadKey(messageId);
      error := None;
    }

    /** fate(0..2) are those of the checks, fate(3..4) those of the repository, fate(5) is that of the
        cache, fate(6..7) are those of the publications. */
    method MarkAsRead(conversationId: Id, user: Id, messageId: Id, now: int, fate: nat -> Fate)
      returns (error: Option<Error>)
      requires TraceOk()
      modifies this`trace, this`history, conversations, cache
      ensures TraceOk()
      ensures error == MarkAnswer(old(conversations.Snapshot()), messages.Snapshot(), conversationId, user, messageId,
                                  fate)
      ensures State() == Apply(Request.MarkAsRead(conversationId, user, messageId, now, fate), old(State()))
    {
      FirstFive(fate);
      ReadingSteps(conversationId, user, messageId, now, fate, State());
      error := CheckRead(conversationId, user, messageId, fate);
      if error.Some? { return; }
      error := conversations.UpdateReadCursor(conversationId, user, messageId, now, fate, 3);
      if error.Some? { return; }
      SpreadRead(conversationId, user, messageId, fate);
    }

    /** MarkAsRead after the cursor is stored; nothing here can fail the call. */
    method SpreadRead(conversationId: Id, user: Id, messageId: Id, fate: nat -> Fate)
      requires TraceOk() && MR.Stored(messageId) in trace
      modifies this`trace, this`history, cache
      ensures TraceOk()
      ensures State() == AfterReceipt(conversationId, user, messageId, fate, old(State()))
    {
      var _ := cache.ClearUnread(user, conversationId, fate(5));
      history := history + [Unread.Read(user, conversationId)];
      PublishTwice(messageId, fate(6), fate(7));
    }

    // ---- conversations ----

    /** Any failed lookup, also one that found a claim without a row, leads on to Create. */
    method CreateDirectChat(user1: Id, user2: Id, id: Id, now: int, fate: nat -> Fate) returns (r: Result<Row>)
      requires id !in conversations.conversations
      modifies conversations
      ensures r == DirectAnswer(user1, user2, id, now, fate, old(conversations.Snapshot()))
      ensures State() == Apply(Request.CreateDirectChat(user1, user2, id, now, fate), old(State()))
    {
      if user1 == user2 { return Err(InvalidInput); }
      var existing := conversations.FindDirectChat(user1, user2, fate, 0);
      if existing.Ok? { return existing; }
      var row := NewDirectConversation(id, user1, user2, now);
      var error := conversations.Create(row, fate, 2);
      r := if error.Some? then Err(error.value) else Ok(row);
    }

    /** A refused request writes nothing, any other sends the script of the new group. */
    method CreateGroup(id: Id, name: string, createdBy: Id, memberIds: seq<Id>, now: int, fate: nat -> Fate)
      returns (r: Result<Row>)
      requires id !in conversations.conversations
      modifies conversations
      ensures r == GroupAnswer(id, name, createdBy, memberIds, now, fate)
      ensures State() == Apply(Request.CreateGroup(id, name, createdBy, memberIds, now, fate), old(State()))
    {
      GroupIsSent(id, name, createdBy, memberIds, now, fate, conversations.Snapshot());
      ghost var t := AfterGroup(id, name, createdBy, memberIds, now, fate, conversations.Snapshot());
      r := NewGroupConversation(id, name, createdBy, memberIds, now);
      if r.Ok? {
        var error := conversations.Create(r.value, fate, 0);
        if error.Some? { r := Err(error.value); }
      }
      assert conversations.Snapshot() == t;
    }

    method CheckAdd(conversationId: Id, requester: Id, user: Id, now: int, fate: Fate) returns (error: Option<Error>)
      ensures error == if fate != Done then Some(StoreFailure)
                       else AddVerdict(conversations.conversations, conversationId, requester, user)
    {
      var found := conversations.FindById(conversationId, fate);
      if found.Err? { return Some(found.error); }
      var conv := new Conversation(found.value);
      var isAdmin := conv.IsAdmin(requester);
      if !isAdmin { return Some(Forbidden); }
      error := conv.AddParticipant(user, now);
    }

    /** The check is made on the conversation as read; then the repository reads it again. */
    method AddParticipant(conversationId: Id, requester: Id, user: Id, now: int, fate: nat -> Fate)
      returns (error: Option<Error>)
      modifies conversations
      ensures State() == Apply(Request.AddParticipant(conversationId, requester, user, now, fate), old(State()))
      ensures error == PartAnswer(AddVerdict(old(conversations.conversations), conversationId, requester, user), fate)
    {
      error := CheckAdd(conversationId, requester, user, now, fate(0));
      if error.Some? { return; }
      error := conversations.AddParticipant(conversationId, NewMember(user), now, fate, 1);
    }

    method CheckRemove(conversationId: Id, requester: Id, user: Id, fate: Fate) returns (error: Option<Error>)
      ensures error == if fate != Done then Some(StoreFailure)
                       else RemoveVerdict(conversations.conversations, conversationId, requester, user)
    {
      var found := conversations.FindById(conversationId, fate);
      if found.Err? { return Some(found.error); }
      var conv := new Conversation(found.value);
      if requester != user {
        var isAdmin := conv.IsAdmin(requester);
        if !isAdmin { return Some(Forbidden); }
      }
      error := None;
    }

    method RemoveParticipant(conversationId: Id, requester: Id, user: Id, now: int, fate: nat -> Fate)
      returns (error: Option<Error>)
      modifies conversations
      ensures State() == Apply(Request.RemoveParticipant(conversationId, requester, user, now, fate), old(State()))
      ensures var verdict := RemoveVerdict(old(conversations.conversations), conversationId, requester, user);
        error == PartAnswer(verdict, fate)
    {
      error := CheckRemove(conversationId, requester, user, fate(0));
      if error.Some? { return; }
      error := conversations.RemoveParticipant(conversationId, user, now, fate, 1);
    }

    /** Members only; the limit is bounded before the repository pages. */
    method GetMessages(conversationId: Id, user: Id, after: Option<Cursor>, limit: int, fate: nat -> Fate)
      returns (r: Result<MessagePage>)
      ensures r.Err? <==> fate(0) != Done || conversationId !in conversations.conversations
                          || user !in Members(conversations.conversations[conversationId].participants)
                          || fate(1) != Done
      ensures r.Err? ==>
        r.error == if fate(0) != Done then StoreFailure
                   else if conversationId !in conversations.conversations then NotFound
                   else if user !in Members(conversations.conversations[conversationId].participants) then NotChatMember
                   else StoreFailure
      ensures r.Ok? <==> && fate(0) == Done && fate(1) == Done && conversationId in conversations.conversations
                         && IsListed(conversations.conversations[conversationId].participants, user)
      ensures r.Ok? ==> |r.value.items| <= MAX_PAGE_SIZE
      ensures r.Ok? ==> AllStored(r.value.items, conversationId, messages.Snapshot())
      ensures r.Ok? ==>
        IsPage(PartitionKeys(messages.Snapshot(), conversationId), Stored(after), NormalizeLimit(limit),
               SortKeys(r.value.items), r.value.hasMore, r.value.next)
      ensures r.Ok? ==>
        IsPageOfRows(messages.Snapshot(), conversationId, after, NormalizeLimit(limit),
                     KeysOf(r.value.items), r.value.hasMore)
    {
      var found := conversations.FindById(conversationId, fate(0));
      if found.Err? { return Err(found.error); }
      var conv := new Conversation(found.value);
      var isMember := conv.HasMember(user);
      ListedIsMember(conv.participants, user);
      if !isMember { return Err(NotChatMember); }
      r := messages.FindByConversation(conversationId, after, NormalizeLimit(limit), fate(1));
    }

    method GetConversations(user: Id, after: Option<Cursor>, limit: int, fate: nat -> Fate)
      returns (r: Result<ConversationPage>)
      ensures r.Ok? <==> AllDone(fate, 0, 1 + |Listed(conversations.Snapshot(), user)|)
      ensures r.Err? ==> r.error == StoreFailure
      ensures r.Ok? ==> |r.value.items| <= MAX_PAGE_SIZE && AllLoaded(r.value.items, conversations.Snapshot())
      ensures r.Ok? ==>
        IsPage(UserKeys(conversations.Snapshot(), user), after, NormalizeLimit(limit),
               ActivityKeys(r.value.items), r.value.hasMore, r.value.next)
      ensures r.Ok? ==>
        IsPageOfUser(conversations.Snapshot(), user, after, NormalizeLimit(limit), r.value.items, r.value.hasMore)
    {
      r := conversations.FindByUser(user, after, NormalizeLimit(limit), fate, 0);
    }
  }
}
