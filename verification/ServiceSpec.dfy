/** What the calls of the service (internal/service) answer and leave behind, as functions of the
    whole state and of the fates of all their statements and publications, and what each guarantees. */
module ServiceSpec {
  import opened Basics
  import opened Conversations
  import opened ConversationRepository
  import opened Messages
  import opened RateLimiting
  import GroupCap
  import CS = ConversationStore
  import Reactions
  import MR = MessageRuns
  import MS = MessageStore
  import TextKeys
  import Unread

  /** A message to send: everything but what SendMessage fills in. */
  datatype SendCommand = SendCommand(conversationId: Id, senderId: Id, kind: string, text: string,
                                     mentions: seq<Id>, media: Option<Media>, replyTo: Option<Reply>,
                                     forwardedFrom: Option<Forward>)

  datatype SendFates = SendFates(limiter: Fate, conversation: Fate, row: Fate, lookup: Fate,
                                 lastMessage: Fate, kafka: Fate, push: Fate, unread: nat -> Fate)

  /** The message SendMessage builds, before Create stamps the time. */
  function NewMessage(id: Id, c: SendCommand): MessageData {
    MessageData(id, c.conversationId, c.senderId, c.kind, c.text, c.mentions, c.media, c.replyTo,
                c.forwardedFrom, [], false, false, ZERO_TIME)
  }

  /** The message as it is stored and answered. */
  function Stamped(id: Id, c: SendCommand, now: int): MessageData {
    NewMessage(id, c).(createdAt := now)
  }

  function Truncate(s: string, n: nat): (r: string)
    ensures r <= s && |r| == if |s| <= n then |s| else n
  {
    if |s| <= n then s else s[..n]
  }

  /** What the conversation keeps of its newest message. */
  function Preview(m: MessageData): LastMessage {
    LastMessage(m.id, m.senderId, Truncate(m.text, 100), m.createdAt)
  }

  /** The checks between loading the conversation and storing the message. */
  ghost function Refusal(row: Row, m: MessageData): Option<Error> {
    if m.senderId !in Members(row.participants) then Some(NotChatMember)
    else if row.onlyAdminsCanSend && !HasAdmin(row.participants, m.senderId) then Some(Forbidden)
    else Validate(m)
  }

  /** What keeps a send from being stored: allowed is the limiter's answer, found what is in the
      conversations table. */
  ghost function SendRefusal(cmd: SendCommand, id: Id, allowed: bool, found: map<Id, Row>, fates: SendFates)
    : Option<Error>
  {
    if fates.limiter != Done then Some(StoreFailure)
    else if !allowed then Some(RateLimited)
    else if fates.conversation != Done then Some(StoreFailure)
    else if cmd.conversationId !in found then Some(NotFound)
    else Refusal(found[cmd.conversationId], NewMessage(id, cmd))
  }

  /** The answer to an AddParticipant request that meets no failure. */
  ghost function AddVerdict(found: map<Id, Row>, c: Id, requester: Id, user: Id): Option<Error> {
    if c !in found then Some(NotFound)
    else if !HasAdmin(found[c].participants, requester) then Some(Forbidden)
    else if found[c].kind == Direct then Some(InvalidInput)
    else if user in Members(found[c].participants) then Some(AlreadyMember)
    else if |found[c].participants| >= MAX_GROUP_PARTICIPANTS then Some(GroupFull)
    else None
  }

  /** The answer to a RemoveParticipant request that meets no failure. */
  ghost function RemoveVerdict(found: map<Id, Row>, c: Id, requester: Id, user: Id): Option<Error> {
    if c !in found then Some(NotFound)
    else if requester != user && !HasAdmin(found[c].participants, requester) then Some(Forbidden)
    else None
  }

  /** The answer to either: a failed read comes first, then the verdict, then a failed repository call. */
  function PartAnswer(verdict: Option<Error>, fate: nat -> Fate): Option<Error> {
    if fate(0) != Done then Some(StoreFailure)
    else if verdict.Some? then verdict
    else if AllDone(fate, 1, 4) then None else Some(StoreFailure)
  }

  /** The conversation tables after an AddParticipant request, for all fates. */
  ghost function AfterAdding(c: Id, requester: Id, user: Id, now: int, fate: nat -> Fate, t: CS.Tables): CS.Tables {
    if AllDone(fate, 0, 2) && AddVerdict(t.conversations, c, requester, user).None?
    then CS.AfterAdd(c, NewMember(user), now, TookEffect(fate, 2, 3), t) else t
  }

  /** The conversation tables after a RemoveParticipant request, for all fates. */
  ghost function AfterRemoving(c: Id, requester: Id, user: Id, now: int, fate: nat -> Fate, t: CS.Tables): CS.Tables {
    if AllDone(fate, 0, 2) && RemoveVerdict(t.conversations, c, requester, user).None?
    then CS.AfterRemoval(CS.Removal(now, TookEffect(fate, 2, 3)), c, user, t) else t
  }

  /** The conversation a direct chat lookup comes up with. */
  ghost function Existing(user1: Id, user2: Id, fate: nat -> Fate, t: CS.Tables): Option<Row> {
    var key := TextKeys.DirectKey(user1, user2);
    if fate(0) == Done && key in t.directConversations
       && fate(1) == Done && t.directConversations[key] in t.conversations
    then Some(Loaded(t, t.directConversations[key])) else None
  }

  function Announced(id: Id, fate: Fate): seq<MR.Event> {
    if fate == Refused then [] else [MR.Published(id)]
  }

  function AnnouncedTwice(id: Id, kafka: Fate, push: Fate): seq<MR.Event> {
    Announced(id, kafka) + Announced(id, push)
  }

  function TimeOf(times: seq<int>, i: int): int {
    if 0 <= i < |times| then times[i] else 0
  }

  /** The clock has not run backwards since the last of these calls. */
  predicate NotBefore(times: seq<int>, now: int) {
    times != [] ==> times[|times| - 1] <= now
  }

  ghost predicate IsNewId(id: Id, t: MS.Tables) {
    id !in t.messagesById && forall k :: k in t.messages ==> k.id != id
  }

  /** The message tables after the two inserts of a send. */
  function AfterStore(m: MessageData, fates: SendFates, t: MS.Tables): MS.Tables {
    MS.AfterSend(KeyOf(m), Flatten(m), fates.row, fates.lookup, t)
  }

  /** The conversation tables after the last message of a conversation was replaced. */
  function AfterPreview(m: MessageData, fates: SendFates, t: CS.Tables): CS.Tables {
    if fates.lastMessage == Refused then t else CS.Execute(CS.WriteLastMessage(m.conversationId, Preview(m)), t)
  }

  /** The message is found by its id and reads back as it was stored. */
  ghost predicate IsStoredAs(m: MessageData, t: MS.Tables) {
    MS.Findable(t, m.id) && MS.Read(t, m.id) == Build(KeyOf(m), Flatten(m))
  }

  lemma StoredReadsBack(m: MessageData, fates: SendFates, t: MS.Tables)
    requires IsNewId(m.id, t) && fates.row == Done && fates.lookup == Done
    ensures IsStoredAs(m, AfterStore(m, fates, t))
  {
    assert KeyOf(m) !in t.messages;
    assert KeyOf(m).(id := m.id) == KeyOf(m);
  }

  lemma SendKeepsCounters(history: seq<Unread.Event>, m: MessageData, members: seq<Id>, fates: nat -> Fate)
    ensures (forall n :: fates(n) != Refused) ==>
      Unread.BumpReached(Unread.After(history), members, m.senderId, m.conversationId, fates)
      == Unread.After(history + [Unread.Sent(m.conversationId, m.senderId, members)])
  {
    Unread.AfterSend(history, m.conversationId, m.senderId, members);
    if forall n :: fates(n) != Refused {
      Unread.AllReached(Unread.After(history), members, m.senderId, m.conversationId, fates);
    }
  }

  /** The first reads and writes of a call, one by one. */
  lemma FirstFive(fate: nat -> Fate)
    ensures AllDone(fate, 0, 4) <==> fate(0) == Done && fate(1) == Done && fate(2) == Done && fate(3) == Done
    ensures AllDone(fate, 0, 5) <==> AllDone(fate, 0, 4) && fate(4) == Done
  {
    AllDoneMeans(fate, 0, 4);
    AllDoneMeans(fate, 0, 5);
  }

  // ---- the calls ----

  /** The tables, the cache, the limiter's record of calls, and three records of what happened: what
      was stored and published, the successful sends and reads, and which of the limiter's calls ended
      in a successful send. */
  datatype World = World(conversations: CS.Tables, messages: MS.Tables, unread: Unread.Counts,
                         calls: map<Id, seq<int>>, trace: seq<MR.Event>, history: seq<Unread.Event>,
                         sends: map<Id, set<int>>)

  ghost function RefusalOf(cmd: SendCommand, id: Id, now: int, fates: SendFates, w: World): Option<Error> {
    var times := CallsOf(CallsAfter(w.calls, cmd.senderId, now, fates.limiter), cmd.senderId);
    SendRefusal(cmd, id, LastAllowed(times), w.conversations.conversations, fates)
  }

  /** Limit and checks first, then the two inserts. */
  ghost function SendAnswer(cmd: SendCommand, id: Id, now: int, fates: SendFates, w: World): Result<MessageData> {
    var refusal := RefusalOf(cmd, id, now, fates, w);
    if refusal.Some? then Err(refusal.value)
    else if fates.row == Done && fates.lookup == Done then Ok(Stamped(id, cmd, now))
    else Err(StoreFailure)
  }

  /** The state when a send has been stored, or has failed. */
  ghost function AfterStoring(cmd: SendCommand, id: Id, now: int, fates: SendFates, w: World): World {
    var w1 := w.(calls := CallsAfter(w.calls, cmd.senderId, now, fates.limiter));
    if RefusalOf(cmd, id, now, fates, w).Some? then w1
    else w1.(messages := AfterStore(Stamped(id, cmd, now), fates, w.messages),
             trace := if fates.row == Refused then w.trace else w.trace + [MR.Stored(id)])
  }

  /** A stored message becomes the last message of its conversation, is announced and is counted for
      the others, each as far as its statement took effect. */
  ghost function AfterSpreading(m: MessageData, members: seq<Id>, fates: SendFates, w: World): World {
    w.(conversations := AfterPreview(m, fates, w.conversations),
       trace := w.trace + AnnouncedTwice(m.id, fates.kafka, fates.push),
       unread := Unread.BumpReached(w.unread, members, m.senderId, m.conversationId, fates.unread),
       history := w.history + [Unread.Sent(m.conversationId, m.senderId, members)])
  }

  ghost function AfterSend(cmd: SendCommand, id: Id, now: int, fates: SendFates, w: World): World {
    var w1, answer := AfterStoring(cmd, id, now, fates, w), SendAnswer(cmd, id, now, fates, w);
    if answer.Err? then w1
    else
      var call := |CallsOf(w.calls, cmd.senderId)|;
      var w2 := w1.(sends := w.sends[cmd.senderId := SendsOf(w.sends, cmd.senderId) + {call}]);
      AfterSpreading(answer.value, Ids(w.conversations.conversations[cmd.conversationId].participants), fates, w2)
  }

  ghost predicate Accepted(t: MS.Tables, id: Id, change: MR.Change, fate: nat -> Fate) {
    fate(0) == Done && fate(1) == Done && MS.Findable(t, id) && MR.Decide(id, MS.Read(t, id), change).Holding?
  }

  /** The message tables after an edit or a deletion. */
  ghost function Written(id: Id, change: MR.Change, fate: nat -> Fate, t: MS.Tables): MS.Tables {
    if fate(0) == Done && fate(1) == Done then MR.AfterChange(id, change, fate(2), t) else t
  }

  ghost function AfterWrite(id: Id, change: MR.Change, fate: nat -> Fate, w: World): World {
    w.(messages := Written(id, change, fate, w.messages),
       trace := if Accepted(w.messages, id, change, fate) && fate(2) == Done
                then w.trace + AnnouncedTwice(id, fate(3), fate(4)) else w.trace)
  }

  /** What keeps an edit of a message that was read from being written. */
  function EditRefusal(m: MessageData, user: Id, text: string): Option<Error> {
    if m.senderId != user then Some(Forbidden)
    else if m.deleted then Some(MessageDeleted)
    else if m.kind != TYPE_TEXT || |text| > MAX_MESSAGE_CONTENT_LENGTH then Some(InvalidInput)
    else None
  }

  ghost function EditAnswer(id: Id, user: Id, text: string, fate: nat -> Fate, t: MS.Tables): (r: Result<MessageData>)
    ensures r.Ok? <==> Accepted(t, id, MR.Edit(user, text), fate) && fate(2) == Done
    ensures r.Ok? ==> r.value == Edited(MS.Read(t, id), text)
  {
    var missing := MS.LookupError(t, id, fate(0), fate(1));
    if missing.Some? then Err(missing.value)
    else
      var refusal := EditRefusal(MS.Read(t, id), user, text);
      if refusal.Some? then Err(refusal.value)
      else if fate(2) == Done then Ok(Edited(MS.Read(t, id), text)) else Err(StoreFailure)
  }

  ghost function DeleteAnswer(id: Id, user: Id, fate: nat -> Fate, t: MS.Tables): (r: Option<Error>)
    ensures r.None? <==> Accepted(t, id, MR.Delete(user), fate) && fate(2) == Done
  {
    var missing := MS.LookupError(t, id, fate(0), fate(1));
    if missing.Some? then missing
    else if MS.Read(t, id).senderId != user then Some(Forbidden)
    else if fate(2) == Done then None else Some(StoreFailure)
  }

  /** The state after the row of an accepted change was written back and, if that went well, announced. */
  ghost function WrittenBack(id: Id, m: MessageData, fate: nat -> Fate, w: World): World {
    w.(messages := if fate(2) == Refused then w.messages
                   else MS.Execute(MS.UpdateRow(KeyOf(m), Flatten(m)), w.messages),
       trace := if fate(2) == Done then w.trace + AnnouncedTwice(id, fate(3), fate(4)) else w.trace)
  }

  lemma EditSteps(id: Id, user: Id, text: string, fate: nat -> Fate, w: World)
    ensures var change := MR.Edit(user, text);
      if Accepted(w.messages, id, change, fate)
      then AfterWrite(id, change, fate, w) == WrittenBack(id, Edited(MS.Read(w.messages, id), text), fate, w)
           && (fate(2) != Done ==> EditAnswer(id, user, text, fate, w.messages) == Err(StoreFailure))
      else AfterWrite(id, change, fate, w) == w
  { }

  lemma DeleteSteps(id: Id, user: Id, fate: nat -> Fate, w: World)
    ensures var change := MR.Delete(user);
      if Accepted(w.messages, id, change, fate)
      then AfterWrite(id, change, fate, w) == WrittenBack(id, Deleted(MS.Read(w.messages, id)), fate, w)
           && (fate(2) != Done ==> DeleteAnswer(id, user, fate, w.messages) == Some(StoreFailure))
      else AfterWrite(id, change, fate, w) == w
  { }

  /** Only members of the message's conversation react. */
  ghost predicate MayReact(t: CS.Tables, m: MS.Tables, id: Id, user: Id) {
    && MS.Findable(m, id)
    && var c := MS.Read(m, id).conversationId;
       c in t.conversations && user in Members(t.conversations[c].participants)
  }

  /** The request passed its checks and its write, if there was one to make, was done. */
  ghost predicate ReactOk(t: CS.Tables, m: MS.Tables, id: Id, user: Id, emoji: string, fate: nat -> Fate) {
    MayReact(t, m, id, user) && AllDone(fate, 0, 5)
    && MS.AddError(m, id, emoji, user, Done, Done, fate(5)).None?
  }

  /** What keeps a request from reaching the repository. */
  ghost function ReactRefusal(t: CS.Tables, m: MS.Tables, id: Id, user: Id, fate: nat -> Fate): (r: Option<Error>)
    ensures r.None? <==> MayReact(t, m, id, user) && fate(0) == Done && fate(1) == Done && fate(2) == Done
  {
    var missing := MS.LookupError(m, id, fate(0), fate(1));
    if missing.Some? then missing
    else
      var c := MS.Read(m, id).conversationId;
      if fate(2) != Done then Some(StoreFailure)
      else if c !in t.conversations then Some(NotFound)
      else if user !in Members(t.conversations[c].participants) then Some(NotChatMember)
      else None
  }

  /** What the repository's read and write make of a reaction request. */
  lemma ReactionChange(id: Id, user: Id, emoji: string, write: Fate, m: MS.Tables)
    requires MS.Findable(m, id)
    ensures var (r, rs) := Reactions.AddTo(MS.Read(m, id).reactions, emoji, user);
      MR.AfterChange(id, MR.React(emoji, user), write, m) ==
        if r == Reactions.Added && write != Refused
        then MS.Execute(MS.UpdateReactions(KeyOf(MS.Read(m, id)), rs), m) else m
  { }

  lemma UnreactionChange(id: Id, user: Id, emoji: string, write: Fate, m: MS.Tables)
    requires MS.Findable(m, id)
    ensures var (removed, rs) := Reactions.RemoveFrom(MS.Read(m, id).reactions, emoji, user);
      MR.AfterChange(id, MR.Unreact(emoji, user), write, m) ==
        if removed && write != Refused
        then MS.Execute(MS.UpdateReactions(KeyOf(MS.Read(m, id)), rs), m) else m
  { }

  /** The checks first, then the repository's two reads and its write. */
  ghost function ReactAnswer(t: CS.Tables, m: MS.Tables, id: Id, user: Id, emoji: string, fate: nat -> Fate)
    : (r: Option<Error>)
    ensures r.None? <==> ReactOk(t, m, id, user, emoji, fate)
  {
    FirstFive(fate);
    var refusal := ReactRefusal(t, m, id, user, fate);
    if refusal.Some? then refusal else MS.AddError(m, id, emoji, user, fate(3), fate(4), fate(5))
  }

  ghost function Reacted(t: CS.Tables, m: MS.Tables, id: Id, user: Id, emoji: string, fate: nat -> Fate): MS.Tables {
    if MayReact(t, m, id, user) && AllDone(fate, 0, 5) then MR.AfterChange(id, MR.React(emoji, user), fate(5), m) else m
  }

  ghost function AfterReact(id: Id, user: Id, emoji: string, fate: nat -> Fate, w: World): World {
    w.(messages := Reacted(w.conversations, w.messages, id, user, emoji, fate),
       trace := if ReactOk(w.conversations, w.messages, id, user, emoji, fate)
                then w.trace + AnnouncedTwice(id, fate(6), fate(7)) else w.trace)
  }

  ghost predicate UnreactOk(m: MS.Tables, id: Id, user: Id, emoji: string, fate: nat -> Fate) {
    MS.Findable(m, id) && AllDone(fate, 0, 4) && MS.RemoveError(m, id, emoji, user, Done, Done, fate(4)).None?
  }

  /** The service reads the message once itself, and the repository again. */
  ghost function UnreactAnswer(m: MS.Tables, id: Id, user: Id, emoji: string, fate: nat -> Fate): (r: Option<Error>)
    ensures r.None? <==> UnreactOk(m, id, user, emoji, fate)
  {
    FirstFive(fate);
    var missing := MS.LookupError(m, id, fate(0), fate(1));
    if missing.Some? then missing else MS.RemoveError(m, id, emoji, user, fate(2), fate(3), fate(4))
  }

  ghost function Unreacted(m: MS.Tables, id: Id, user: Id, emoji: string, fate: nat -> Fate): MS.Tables {
    if AllDone(fate, 0, 4) then MR.AfterChange(id, MR.Unreact(emoji, user), fate(4), m) else m
  }

  /** Membership is not asked for, and the event goes out even when there was nothing to remove. */
  ghost function AfterUnreact(id: Id, user: Id, emoji: string, fate: nat -> Fate, w: World): World {
    w.(messages := Unreacted(w.messages, id, user, emoji, fate),
       trace := if UnreactOk(w.messages, id, user, emoji, fate)
                then w.trace + AnnouncedTwice(id, fate(5), fate(6)) else w.trace)
  }

  predicate IsIn(m: MS.Tables, messageId: Id, conversationId: Id) {
    MS.Findable(m, messageId) && MS.Read(m, messageId).conversationId == conversationId
  }

  /** The answer to a MarkAsRead request that meets no failure. */
  ghost function ReadVerdict(t: CS.Tables, m: MS.Tables, c: Id, user: Id, messageId: Id): Option<Error> {
    if c !in t.conversations then Some(NotFound)
    else if user !in Members(t.conversations[c].participants) then Some(NotChatMember)
    else if !IsIn(m, messageId, c) then Some(NotFound)
    else None
  }

  /** The read position is stored once the checks have passed. */
  ghost function Marked(c: Id, user: Id, messageId: Id, now: int, fate: nat -> Fate, t: CS.Tables, m: MS.Tables)
    : CS.Tables
  {
    if AllDone(fate, 0, 4) && ReadVerdict(t, m, c, user, messageId).None? && fate(4) != Refused
    then CS.AfterOperation(CS.UpdateReadCursor(c, user, messageId, now), t) else t
  }

  ghost predicate MarkOk(c: Id, user: Id, messageId: Id, fate: nat -> Fate, t: CS.Tables, m: MS.Tables) {
    AllDone(fate, 0, 5) && ReadVerdict(t, m, c, user, messageId).None?
  }

  /** What keeps a request from reaching the repository. */
  ghost function ReadRefusal(t: CS.Tables, m: MS.Tables, c: Id, user: Id, messageId: Id, fate: nat -> Fate)
    : (r: Option<Error>)
    ensures r.None? <==> ReadVerdict(t, m, c, user, messageId).None?
                         && fate(0) == Done && fate(1) == Done && fate(2) == Done
    ensures fate(0) == Done && fate(1) == Done && fate(2) == Done ==> r == ReadVerdict(t, m, c, user, messageId)
  {
    if fate(0) != Done then Some(StoreFailure)
    else if c !in t.conversations then Some(NotFound)
    else if user !in Members(t.conversations[c].participants) then Some(NotChatMember)
    else
      var missing := MS.LookupError(m, messageId, fate(1), fate(2));
      if missing.Some? then missing else if !IsIn(m, messageId, c) then Some(NotFound) else None
  }

  ghost function MarkAnswer(t: CS.Tables, m: MS.Tables, c: Id, user: Id, messageId: Id, fate: nat -> Fate)
    : (r: Option<Error>)
    ensures r.None? <==> MarkOk(c, user, messageId, fate, t, m)
  {
    FirstFive(fate);
    var refusal := ReadRefusal(t, m, c, user, messageId, fate);
    if refusal.Some? then refusal
    else if fate(3) == Done && fate(4) == Done then None else Some(StoreFailure)
  }

  /** The counter is cleared and the receipt announced. */
  ghost function AfterReceipt(c: Id, user: Id, messageId: Id, fate: nat -> Fate, w: World): World {
    w.(unread := if fate(5) == Refused then w.unread else Unread.Clear(w.unread, user, c),
       history := w.history + [Unread.Read(user, c)],
       trace := w.trace + AnnouncedTwice(messageId, fate(6), fate(7)))
  }

  /** That follows only a stored position. */
  ghost function AfterReading(c: Id, user: Id, messageId: Id, now: int, fate: nat -> Fate, w: World): World {
    var w1 := w.(conversations := Marked(c, user, messageId, now, fate, w.conversations, w.messages));
    if MarkOk(c, user, messageId, fate, w.conversations, w.messages) then AfterReceipt(c, user, messageId, fate, w1)
    else w1
  }

  lemma ReadingSteps(c: Id, user: Id, messageId: Id, now: int, fate: nat -> Fate, w: World)
    ensures ReadRefusal(w.conversations, w.messages, c, user, messageId, fate).Some? ==>
              AfterReading(c, user, messageId, now, fate, w) == w
    ensures ReadRefusal(w.conversations, w.messages, c, user, messageId, fate).None? ==>
      var t := w.conversations;
      var w1 := w.(conversations := if fate(3) == Done && fate(4) != Refused
                                    then CS.AfterOperation(CS.UpdateReadCursor(c, user, messageId, now), t) else t);
      AfterReading(c, user, messageId, now, fate, w) ==
        if fate(3) == Done && fate(4) == Done then AfterReceipt(c, user, messageId, fate, w1) else w1
  {
    FirstFive(fate);
  }

  ghost function AfterDirect(user1: Id, user2: Id, id: Id, now: int, fate: nat -> Fate, t: CS.Tables): CS.Tables {
    if user1 == user2 || Existing(user1, user2, fate, t).Some? then t
    else AfterCreate(NewDirectConversation(id, user1, user2, now), fate, 2, t)
  }

  /** An existing conversation is returned; otherwise the statements of Create decide. */
  ghost function DirectAnswer(user1: Id, user2: Id, id: Id, now: int, fate: nat -> Fate, t: CS.Tables): Result<Row> {
    var row, existing := NewDirectConversation(id, user1, user2, now), Existing(user1, user2, fate, t);
    if user1 == user2 then Err(InvalidInput)
    else if existing.Some? then Ok(existing.value)
    else if KeyTaken(row, t) then Err(if fate(2) == Done then DuplicateConversation else StoreFailure)
    else if AllDone(fate, 2, |CS.CreateScript(row)|) then Ok(row) else Err(StoreFailure)
  }

  /** The refusal, if there is one; otherwise the statements of Create decide. */
  ghost function GroupAnswer(id: Id, name: string, createdBy: Id, memberIds: seq<Id>, now: int, fate: nat -> Fate)
    : Result<Row>
  {
    var row, refusal := NewGroup(id, name, createdBy, memberIds, now), GroupRefusal(name, memberIds);
    if refusal.Some? then Err(refusal.value)
    else if AllDone(fate, 0, |CS.CreateScript(row)|) then Ok(row) else Err(StoreFailure)
  }

  ghost function AfterGroup(id: Id, name: string, createdBy: Id, memberIds: seq<Id>, now: int, fate: nat -> Fate,
                            t: CS.Tables): CS.Tables {
    if GroupRefusal(name, memberIds).Some? then t
    else CS.Sent(CS.CreateScript(NewGroup(id, name, createdBy, memberIds, now)), fate, 0, t)
  }

  /** A group claims no key. */
  lemma GroupIsSent(id: Id, name: string, createdBy: Id, memberIds: seq<Id>, now: int, fate: nat -> Fate, t: CS.Tables)
    ensures var row := NewGroup(id, name, createdBy, memberIds, now);
      && !KeyTaken(row, t)
      && AfterGroup(id, name, createdBy, memberIds, now, fate, t) ==
         if GroupRefusal(name, memberIds).Some? then t else AfterCreate(row, fate, 0, t)
  { }

  // ---- what the single calls guarantee ----

  /** A send that was answered with success is found by its id and reads back as stored, came after an
      allowed call and passed every check; and one that was not announces and counts nothing and leaves
      the conversations alone. */
  lemma SendOutcome(cmd: SendCommand, id: Id, now: int, fates: SendFates, w: World)
    requires IsNewId(id, w.messages)
    ensures var answer, w' := SendAnswer(cmd, id, now, fates, w), AfterSend(cmd, id, now, fates, w);
      && (answer.Ok? ==>
            && IsStoredAs(answer.value, w'.messages)
            && LastAllowed(CallsOf(w'.calls, cmd.senderId))
            && cmd.conversationId in w.conversations.conversations
            && Refusal(w.conversations.conversations[cmd.conversationId], NewMessage(id, cmd)).None?)
      && (answer.Err? ==>
            && w'.conversations == w.conversations && w'.unread == w.unread && w'.history == w.history
            && (w'.trace == w.trace || w'.trace == w.trace + [MR.Stored(id)]))
      && (forall k :: k in w.messages.messages ==>
            k in w'.messages.messages && w'.messages.messages[k] == w.messages.messages[k])
  {
    if SendAnswer(cmd, id, now, fates, w).Ok? { StoredReadsBack(Stamped(id, cmd, now), fates, w.messages); }
  }

  /** Without failures a direct chat request succeeds exactly when the key is free or its conversation
      exists. A success returns the conversation that holds the key from then on; an existing one
      without a write, a new one complete and with both users. */
  lemma DirectOutcome(user1: Id, user2: Id, id: Id, now: int, fate: nat -> Fate, t: CS.Tables)
    requires user1 != user2 && id !in t.conversations
    ensures var key, answer, t' := TextKeys.DirectKey(user1, user2), DirectAnswer(user1, user2, id, now, fate, t),
                                   AfterDirect(user1, user2, id, now, fate, t);
      && ((forall n :: fate(n) == Done) ==>
            (answer.Ok? <==> (key in t.directConversations ==> t.directConversations[key] in t.conversations)))
      && (answer.Ok? ==>
            && key in t'.directConversations && t'.directConversations[key] == answer.value.id
            && answer.value.id in t'.conversations
            && (key in t.directConversations ==> t' == t)
            && (key !in t.directConversations ==>
                  answer.value.id == id && Members(answer.value.participants) == {user1, user2}
                  && t' == CS.Run(CS.CreateScript(answer.value), t)))
  {
    var row := NewDirectConversation(id, user1, user2, now);
    DirectConversationIsSymmetric(id, user1, user2, now);
    AllDoneMeans(fate, 2, |CS.CreateScript(row)|);
    CS.SentIsPrefix(CS.CreateScript(row), fate, 2, t);
    if !KeyTaken(row, t) { CS.CreateRun(row, t); }
  }

  /** Without failures a group is made exactly when name and list are within bounds. A group made has
      distinct members, at most 50, its creator as admin, and agrees with both indexes; a refused
      request writes nothing. */
  lemma GroupOutcome(id: Id, name: string, createdBy: Id, memberIds: seq<Id>, now: int, fate: nat -> Fate, t: CS.Tables)
    requires id !in t.conversations
    ensures var answer, t' := GroupAnswer(id, name, createdBy, memberIds, now, fate),
                              AfterGroup(id, name, createdBy, memberIds, now, fate, t);
      && ((forall n :: fate(n) == Done) ==> (answer.Ok? <==> GroupRefusal(name, memberIds).None?))
      && (GroupRefusal(name, memberIds).Some? ==> answer.Err? && t' == t)
      && (answer.Ok? ==>
            && CS.WithinLimits(answer.value.participants) && HasAdmin(answer.value.participants, createdBy)
            && id in t'.conversations && t'.conversations[id] == answer.value
            && (CS.Agrees(t, id) ==> CS.Agrees(t', id)))
  {
    if GroupRefusal(name, memberIds).None? {
      var row := NewGroup(id, name, createdBy, memberIds, now);
      NewGroupWithinLimits(id, name, createdBy, memberIds, now);
      AllDoneMeans(fate, 0, |CS.CreateScript(row)|);
      CS.SentIsPrefix(CS.CreateScript(row), fate, 0, t);
      CS.CreateStores(row, t);
    }
  }

  lemma NewGroupWithinLimits(id: Id, name: string, createdBy: Id, memberIds: seq<Id>, now: int)
    requires GroupRefusal(name, memberIds).None?
    ensures var ps := NewGroup(id, name, createdBy, memberIds, now).participants;
      Ids(ps) == FirstAppearances([createdBy] + memberIds) && CS.WithinLimits(ps) && HasAdmin(ps, createdBy)
  {
    var ps, named := NewGroup(id, name, createdBy, memberIds, now).participants, [createdBy] + memberIds;
    FirstAppearancesAreASet(named);
    assert Ids(ps) == FirstAppearances(named);
    FirstAppearsFirst(named);
    assert ps[0].userId == createdBy && ps[0].role == Admin;
  }

  lemma {:induction false} FirstAppearsFirst(ids: seq<Id>)
    requires ids != []
    ensures FirstAppearances(ids) != [] && FirstAppearances(ids)[0] == ids[0]
    decreases |ids|
  {
    if |ids| > 1 {
      FirstAppearsFirst(ids[..|ids| - 1]);
    } else {
      assert ids[..0] == [];
    }
  }

  /** A success has taken an admin's request to a group with room and without the user, adds the user,
      and keeps agreement with the indexes. */
  lemma AddOutcome(c: Id, requester: Id, user: Id, now: int, fate: nat -> Fate, t: CS.Tables)
    requires PartAnswer(AddVerdict(t.conversations, c, requester, user), fate).None?
    ensures var t' := AfterAdding(c, requester, user, now, fate, t);
      && c in t.conversations && c in t'.conversations && t.conversations[c].kind != Direct
      && GroupCap.Enabled(GroupCap.Check(0, requester, user), GroupCap.Start(t.conversations[c].participants), 1)
      && t' == CS.AfterOperation(CS.AddParticipant(c, NewMember(user), now), t)
      && Ids(t'.conversations[c].participants) == Ids(t.conversations[c].participants) + [user]
      && (CS.Agrees(t, c) ==> CS.Agrees(t', c))
  {
    AllTookEffect(fate, 2, 3);
    CS.UncutIsOperation(c, NewMember(user), user, now, t);
    CS.AddPrefix(c, NewMember(user), now, 3, t);
    MembersOfAppend(t.conversations[c].participants, NewMember(user));
    assert GroupCap.Adds(GroupCap.Start(t.conversations[c].participants)) == {};
    if CS.Agrees(t, c) { CS.AddAgrees(c, NewMember(user), now, t); }
  }

  /** A success is one's own request or an admin's; the user is gone, and participants and indexes
      agree exactly when they did for everybody else. */
  lemma RemoveOutcome(c: Id, requester: Id, user: Id, now: int, fate: nat -> Fate, t: CS.Tables)
    requires PartAnswer(RemoveVerdict(t.conversations, c, requester, user), fate).None?
    ensures var t' := AfterRemoving(c, requester, user, now, fate, t);
      && c in t.conversations && c in t'.conversations
      && (requester == user || HasAdmin(t.conversations[c].participants, requester))
      && t' == CS.AfterOperation(CS.RemoveParticipant(c, user, now), t)
      && user !in Members(t'.conversations[c].participants)
      && (CS.AgreesExcept(t, c, user) <==> CS.Agrees(t', c))
  {
    AllTookEffect(fate, 2, 3);
    CS.UncutIsOperation(c, NewMember(user), user, now, t);
    CS.FinishedRemovalAgreesIff(CS.Removal(now, 3), c, user, t);
  }
}
